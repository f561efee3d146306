/** The per-account variable store (utils.js:13, 274-329).

    The source keeps one module-global object `{ account: { name: value } }`;
    here the store is an immutable map passed in and returned explicitly. */
module Variables {
  import opened Chars
  import opened Results

  type Vars = map<char, real>
  type Store = map<string, Vars>

  /** The JavaScript values `setVariable` may be handed: a number, NaN, or
      something that is not a number at all. */
  datatype JsValue = Number(x: real) | NaN | Text(s: string) | Boolean(b: bool)

  /** `/^[a-zA-Z]$/.test(name)`. */
  predicate IsVarName(name: string) {
    |name| == 1 && IsLetter(name[0])
  }

  /** Every name stored for every account is a single letter, as only
      `SetVariable` ever adds names. */
  ghost predicate WellFormed(store: Store) {
    forall a, c :: a in store && c in store[a] ==> IsLetter(c)
  }

  /** The account's variables, empty when it has none (`variables[account] || {}`). */
  function VarsOf(store: Store, account: string): Vars {
    if account in store then store[account] else map[]
  }

  /** `setVariable(varName, value, account)`. */
  function SetVariable(store: Store, name: string, value: JsValue, account: string): (r: Result<Store>)
    ensures !IsVarName(name) ==> r == Err(InvalidVarName)
    ensures IsVarName(name) && !value.Number? ==> r == Err(NotNumber)
    ensures r.Err? ==> r.error == InvalidVarName || r.error == NotNumber
    ensures r.Ok? ==> IsVarName(name) && value.Number?
    ensures r.Ok? ==> account in r.value && name[0] in r.value[account] && r.value[account][name[0]] == value.x
    ensures r.Ok? ==> forall a :: a != account ==> (a in r.value <==> a in store)
    ensures r.Ok? ==> forall a :: a != account && a in store ==> r.value[a] == store[a]
    ensures r.Ok? ==> forall c :: c != name[0] ==> (c in r.value[account] <==> c in VarsOf(store, account))
    ensures r.Ok? ==> forall c :: c != name[0] && c in VarsOf(store, account) ==> r.value[account][c] == VarsOf(store, account)[c]
  {
    if !IsVarName(name) then Err(InvalidVarName)
    else if !value.Number? then Err(NotNumber)
    else Ok(store[account := VarsOf(store, account)[name[0] := value.x]])
  }

  /** `getVariable(varName, account)`. */
  function GetVariable(store: Store, name: string, account: string): (r: Result<real>)
    ensures r.Ok? <==> account in store && |name| == 1 && name[0] in store[account]
    ensures r.Ok? ==> r.value == store[account][name[0]]
    ensures r.Err? ==> r.error == Undefined
  {
    if account in store && |name| == 1 && name[0] in store[account] then Ok(store[account][name[0]])
    else Err(Undefined)
  }

  /** `deleteVariables(account)`: JavaScript `delete` answers true whether or
      not the property was there (utils.js:328). */
  function DeleteVariables(store: Store, account: string): (r: (Store, bool))
    ensures r.1
    ensures account !in r.0
    ensures forall a :: a != account ==> (a in r.0 <==> a in store)
    ensures forall a :: a != account && a in store ==> r.0[a] == store[a]
  {
    (store - {account}, true)
  }

  /** A successful set is read back by get. */
  lemma GetAfterSet(store: Store, name: string, x: real, account: string)
    requires IsVarName(name)
    ensures SetVariable(store, name, Number(x), account).Ok?
    ensures GetVariable(SetVariable(store, name, Number(x), account).value, name, account) == Ok(x)
  {
  }

  /** Setting one pair leaves every lookup of every other pair as it was:
      accounts are isolated from each other and names within an account. */
  lemma SetIsolation(store: Store, name: string, value: JsValue, account: string, other: string, otherAccount: string)
    requires SetVariable(store, name, value, account).Ok?
    requires otherAccount != account || other != name
    ensures GetVariable(SetVariable(store, name, value, account).value, other, otherAccount)
         == GetVariable(store, other, otherAccount)
  {
  }

  /** Deleting an account's variables makes all its names undefined and
      leaves every other account's lookups unchanged. */
  lemma DeleteIsolation(store: Store, account: string, name: string, otherAccount: string)
    ensures GetVariable(DeleteVariables(store, account).0, name, account) == Err(Undefined)
    ensures otherAccount != account ==>
      GetVariable(DeleteVariables(store, account).0, name, otherAccount) == GetVariable(store, name, otherAccount)
  {
  }

  /** Only single letters ever become names. */
  lemma SetKeepsWellFormed(store: Store, name: string, value: JsValue, account: string)
    requires WellFormed(store)
    requires SetVariable(store, name, value, account).Ok?
    ensures WellFormed(SetVariable(store, name, value, account).value)
  {
  }

  /** The two accounts of the source's isolation test keep separate values. */
  lemma TwoAccountsExample()
    ensures var s1 := SetVariable(map[], "b", Number(1.0), "bill");
      && s1.Ok?
      && var s2 := SetVariable(s1.value, "b", Number(2.0), "matt");
      && s2.Ok?
      && GetVariable(s2.value, "b", "bill") == Ok(1.0)
      && GetVariable(s2.value, "b", "matt") == Ok(2.0)
      && GetVariable(DeleteVariables(s2.value, "bill").0, "b", "bill") == Err(Undefined)
      && GetVariable(DeleteVariables(s2.value, "bill").0, "b", "matt") == Ok(2.0)
  {
  }
}
