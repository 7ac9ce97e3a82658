/** Reshaping the decoded `composer.lock` data: the package sections are run
    through a package loader, and the flat list of branch aliases becomes a
    table indexed by package and version. The loader (Composer's
    `ArrayLoader`, with aliases unwrapped) is a parameter. */
module PackageUtil {
  import opened Wrappers
  import opened OrderedMap
  import opened PhpValue

  const Packages: string := "packages"
  const PackagesDev: string := "packages-dev"
  const Aliases: string := "aliases"

  // ---------------------------------------------------------------------
  // Package sections
  // ---------------------------------------------------------------------

  /** The section `loadLockPackage` loads. */
  function SectionKey(dev: bool): string {
    if dev then PackagesDev else Packages
  }

  /** `loadLockPackage`: when the section (`packages`, or `packages-dev` for
      `dev`) is set, every package in it is replaced in place by what the
      loader makes of it. A section that is set but not an array fails in
      the `foreach`. */
  function LoadLockPackage(load: Value -> Value, lockData: Entries<Value>, dev: bool): (r: Result<Entries<Value>>)
    ensures r.Success? ==> Keys(r.value) == Keys(lockData)
    ensures !IsSet(lockData, SectionKey(dev)) ==> r == Success(lockData)
    ensures r.Failure? <==> IsSet(lockData, SectionKey(dev)) && !Get(lockData, SectionKey(dev)).value.Arr?
    ensures r.Failure? ==> r.error == Foreach(Get(lockData, SectionKey(dev)).value).error
  {
    var key := SectionKey(dev);
    if IsSet(lockData, key) then
      var e :- Foreach(Get(lockData, key).value);
      Success(Set(lockData, key, Arr(MapValues(load, e))))
    else Success(lockData)
  }

  /** The loaded section keeps the keys of the original one and holds the
      loader's result for each package; no other key of the lock data
      changes. */
  lemma LoadLockPackageLookup(load: Value -> Value, lockData: Entries<Value>, dev: bool, k: string)
    ensures var key := SectionKey(dev);
            var r := LoadLockPackage(load, lockData, dev);
            (r.Success? && k != key ==> Get(r.value, k) == Get(lockData, k))
            && (Get(lockData, key).Some? && Get(lockData, key).value.Arr?
                ==> r.Success? && Get(r.value, key) == Some(Arr(MapValues(load, Get(lockData, key).value.entries))))
  {
    var key := SectionKey(dev);
    if Get(lockData, key).Some? && Get(lockData, key).value.Arr? {
      SetLookup(lockData, key, Arr(MapValues(load, Get(lockData, key).value.entries)), k);
      SetLookup(lockData, key, Arr(MapValues(load, Get(lockData, key).value.entries)), key);
    }
  }

  // ---------------------------------------------------------------------
  // Aliases
  // ---------------------------------------------------------------------

  /** `$row[$field]` read from an alias row. */
  function Field(row: Value, field: string): (r: Result<Value>)
    ensures r.Success? <==> row.Arr? && Get(row.entries, field).Some?
    ensures r.Success? ==> r.value == Get(row.entries, field).value
    ensures row.Arr? && r.Failure? ==> r.error == ErrorException("Undefined array key \"" + field + "\"")
    ensures row.Str? ==> r == Failure(StringOffset)
    ensures !row.Arr? && !row.Str?
            ==> r == Failure(ErrorException("Trying to access array offset on value of type " + TypeName(row)))
  {
    Offset(row, field)
  }

  /** The alias table under construction: package, then version, then the
      alias record. */
  type Table = Entries<Entries<Value>>

  /** The four fields of an alias row. */
  datatype RowFields = RowFields(package: Value, version: Value, alias: Value, aliasNormalized: Value)

  /** An array row holding all four fields. */
  predicate HasFields(row: Value) {
    row.Arr?
    && Get(row.entries, "package").Some? && Get(row.entries, "version").Some?
    && Get(row.entries, "alias").Some? && Get(row.entries, "alias_normalized").Some?
  }

  /** The fields of a row, read in the order PHP evaluates the assignment:
      the two offsets of the target, then the record on the right. */
  function ReadRow(row: Value): (r: Result<RowFields>)
    ensures r.Success? <==> HasFields(row)
    ensures r.Success? ==> r.value == RowFields(Get(row.entries, "package").value, Get(row.entries, "version").value,
                                                Get(row.entries, "alias").value, Get(row.entries, "alias_normalized").value)
  {
    var p :- Field(row, "package");
    var v :- Field(row, "version");
    var a :- Field(row, "alias");
    var n :- Field(row, "alias_normalized");
    Success(RowFields(p, v, a, n))
  }

  /** A row the conversion can file: all four fields are there, and the
      package and version can serve as array keys. */
  predicate WellFormedRow(row: Value) {
    HasFields(row) && !Get(row.entries, "package").value.Arr? && !Get(row.entries, "version").value.Arr?
  }

  /** The two keys an alias row is filed under. */
  function RowKey(row: Value): (r: Result<(string, string)>)
    ensures r.Success? <==> WellFormedRow(row)
    ensures r.Success? ==> r.value == (ToKey(Get(row.entries, "package").value).value, ToKey(Get(row.entries, "version").value).value)
    ensures ReadRow(row).Failure? ==> r == Failure(ReadRow(row).error)
  {
    var f :- ReadRow(row);
    var p :- ToKey(f.package);
    var v :- ToKey(f.version);
    Success((p, v))
  }

  /** A row missing a field raises the warning for the first field read. */
  lemma RowKeyMissingField()
    ensures RowKey(Arr([("package", Str("a/b")), ("version", Str("1.0.0"))]))
            == Failure(ErrorException("Undefined array key \"alias\""))
  {
    var row := Arr([("package", Str("a/b")), ("version", Str("1.0.0"))]);
    assert Get(row.entries, "package") == Some(Str("a/b"));
    assert Get(row.entries, "version") == Some(Str("1.0.0"));
    assert Get(row.entries, "alias") == None;
  }

  /** A scalar row raises the warning for its type, a string row the
      string-offset error. */
  lemma RowKeyScalarRows()
    ensures RowKey(Int(5)) == Failure(ErrorException("Trying to access array offset on value of type int"))
    ensures RowKey(Null) == Failure(ErrorException("Trying to access array offset on value of type null"))
    ensures RowKey(Str("x")) == Failure(StringOffset)
  {
    OffsetSpelled();
  }

  lemma OffsetSpelled()
    ensures "Trying to access array offset on value of type " + "int" == "Trying to access array offset on value of type int"
    ensures "Trying to access array offset on value of type " + "null" == "Trying to access array offset on value of type null"
  {
  }

  /** The record stored for an alias row. */
  function AliasRecord(row: Value): Value
    requires ReadRow(row).Success?
  {
    var f := ReadRow(row).value;
    Arr([("alias", f.alias), ("alias_normalized", f.aliasNormalized)])
  }

  /** `$table[$package][$version]`, if both levels exist. */
  function Lookup2(t: Table, p: string, v: string): Option<Value> {
    match Get(t, p)
    case None => None
    case Some(inner) => Get(inner, v)
  }

  /** `$aliases[$row['package']][$row['version']] = array('alias' => ..,
      'alias_normalized' => ..)`, creating the package level when it is
      missing. */
  function AddAlias(t: Table, row: Value): (r: Result<Table>)
    ensures r.Success? <==> RowKey(row).Success?
  {
    var key :- RowKey(row);
    Success(Set(t, key.0, Set(Get(t, key.0).GetOr([]), key.1, AliasRecord(row))))
  }

  /** Filing a row sets its own cell and leaves every other cell alone. */
  lemma AddAliasLookup(t: Table, row: Value, p: string, v: string)
    requires RowKey(row).Success?
    ensures Lookup2(AddAlias(t, row).value, p, v)
            == if RowKey(row).value == (p, v) then Some(AliasRecord(row)) else Lookup2(t, p, v)
  {
    var key := RowKey(row).value;
    var inner := Set(Get(t, key.0).GetOr([]), key.1, AliasRecord(row));
    SetLookup(t, key.0, inner, p);
    SetLookup(Get(t, key.0).GetOr([]), key.1, AliasRecord(row), v);
  }

  /** The `foreach` over the alias rows, stopping at the first error. */
  function AddAliases(t: Table, rows: seq<Value>): Result<Table>
    decreases |rows|
  {
    if |rows| == 0 then Success(t)
    else
      var t1 :- AddAlias(t, rows[0]);
      AddAliases(t1, rows[1..])
  }

  /** One step of the pass: the first row was filed, the rest were filed
      into the result. */
  lemma AddAliasesStep(t: Table, rows: seq<Value>)
    requires |rows| > 0 && AddAliases(t, rows).Success?
    ensures RowKey(rows[0]).Success?
    ensures AddAliases(t, rows) == AddAliases(AddAlias(t, rows[0]).value, rows[1..])
  {
  }

  /** A successful pass files every row. */
  lemma {:induction false} AddAliasesEachRow(t: Table, rows: seq<Value>, i: int)
    requires AddAliases(t, rows).Success?
    requires 0 <= i < |rows|
    ensures RowKey(rows[i]).Success?
    decreases |rows|
  {
    hide AddAliases, AddAlias, RowKey;
    AddAliasesStep(t, rows);
    if i > 0 {
      AddAliasesEachRow(AddAlias(t, rows[0]).value, rows[1..], i - 1);
    }
  }

  /** A pass over rows that can all be filed succeeds. */
  lemma {:induction false} AddAliasesAllRows(t: Table, rows: seq<Value>)
    requires forall j :: 0 <= j < |rows| ==> WellFormedRow(rows[j])
    ensures AddAliases(t, rows).Success?
    decreases |rows|
  {
    if |rows| > 0 {
      assert RowKey(rows[0]).Success?;
      AddAliasesAllRows(AddAlias(t, rows[0]).value, rows[1..]);
    }
  }

  /** A cell no row is filed under keeps what it held before. */
  lemma {:induction false} AddAliasesUntouched(t: Table, rows: seq<Value>, p: string, v: string)
    requires AddAliases(t, rows).Success?
    requires forall j :: 0 <= j < |rows| ==> RowKey(rows[j]) != Success((p, v))
    ensures Lookup2(AddAliases(t, rows).value, p, v) == Lookup2(t, p, v)
    decreases |rows|
  {
    if |rows| > 0 {
      hide AddAliases, AddAlias, RowKey;
      AddAliasesStep(t, rows);
      var t1 := AddAlias(t, rows[0]).value;
      AddAliasLookup(t, rows[0], p, v);
      AddAliasesUntouched(t1, rows[1..], p, v);
    }
  }

  /** A cell holds the record of the last row filed under it: a later row
      with the same package and version overwrites an earlier one. */
  lemma {:induction false} AddAliasesLastWins(t: Table, rows: seq<Value>, p: string, v: string, i: int)
    requires AddAliases(t, rows).Success?
    requires 0 <= i < |rows| && RowKey(rows[i]) == Success((p, v))
    requires forall j :: i < j < |rows| ==> RowKey(rows[j]) != Success((p, v))
    ensures Lookup2(AddAliases(t, rows).value, p, v) == Some(AliasRecord(rows[i]))
    decreases |rows|
  {
    hide AddAliases, AddAlias, RowKey;
    AddAliasesStep(t, rows);
    var t1 := AddAlias(t, rows[0]).value;
    if i == 0 {
      AddAliasLookup(t, rows[0], p, v);
      AddAliasesUntouched(t1, rows[1..], p, v);
    } else {
      AddAliasesLastWins(t1, rows[1..], p, v, i - 1);
    }
  }

  /** The table as the nested PHP array it is. */
  function TableValue(t: Table): (r: Entries<Value>)
    ensures Keys(r) == Keys(t)
  {
    if |t| == 0 then [] else [(t[0].0, Arr(t[0].1))] + TableValue(t[1..])
  }

  lemma {:induction false} TableValueLookup(t: Table, p: string)
    ensures Get(TableValue(t), p) == match Get(t, p) case None => None case Some(e) => Some(Arr(e))
  {
    if |t| > 0 {
      TableValueLookup(t[1..], p);
    }
  }

  /** `$data['aliases'][$p][$v]` read from lock data, if both levels exist. */
  function AliasCell(data: Entries<Value>, p: string, v: string): Option<Value> {
    var table := Get(data, Aliases);
    if table.Some? && table.value.Arr? then
      var row := Get(table.value.entries, p);
      if row.Some? && row.value.Arr? then Get(row.value.entries, v) else None
    else None
  }

  /** The alias rows of the lock data: the values of the `aliases` array. */
  function AliasRows(lockData: Entries<Value>): seq<Value>
    requires Get(lockData, Aliases).Some? && Get(lockData, Aliases).value.Arr?
  {
    Values(Get(lockData, Aliases).value.entries)
  }

  /** `convertLockAlias`: when `aliases` is set, replace it in place by the
      table of its rows. A set value that is not an array fails in the
      `foreach`. */
  function ConvertLockAlias(lockData: Entries<Value>): (r: Result<Entries<Value>>)
    ensures !IsSet(lockData, Aliases) ==> r == Success(lockData)
    ensures IsSet(lockData, Aliases) && !Get(lockData, Aliases).value.Arr?
            ==> r == Failure(Foreach(Get(lockData, Aliases).value).error)
    ensures IsSet(lockData, Aliases) && Get(lockData, Aliases).value.Arr?
            ==> (r.Success? <==> AddAliases([], AliasRows(lockData)).Success?)
    ensures r.Success? ==> Keys(r.value) == Keys(lockData)
  {
    if IsSet(lockData, Aliases) then
      var e :- Foreach(Get(lockData, Aliases).value);
      var t :- AddAliases([], Values(e));
      Success(Set(lockData, Aliases, Arr(TableValue(t))))
    else
      Success(lockData)
  }

  /** Keys other than `aliases` are untouched. */
  lemma ConvertLockAliasOthers(lockData: Entries<Value>, k: string)
    requires ConvertLockAlias(lockData).Success?
    requires k != Aliases
    ensures Get(ConvertLockAlias(lockData).value, k) == Get(lockData, k)
  {
    if IsSet(lockData, Aliases) {
      var t := AddAliases([], AliasRows(lockData)).value;
      SetLookup(lockData, Aliases, Arr(TableValue(t)), k);
    }
  }

  /** The table found in the converted lock data. */
  lemma ConvertedCell(lockData: Entries<Value>, p: string, v: string)
    requires IsSet(lockData, Aliases)
    requires ConvertLockAlias(lockData).Success?
    ensures AddAliases([], AliasRows(lockData)).Success?
    ensures AliasCell(ConvertLockAlias(lockData).value, p, v)
            == Lookup2(AddAliases([], AliasRows(lockData)).value, p, v)
  {
    var t := AddAliases([], AliasRows(lockData)).value;
    SetLookup(lockData, Aliases, Arr(TableValue(t)), Aliases);
    TableValueLookup(t, p);
  }

  /** Each alias row ends up as `aliases[package][version] = {alias,
      alias_normalized}`, the last row for a package and version winning. */
  lemma ConvertLockAliasLastWins(lockData: Entries<Value>, p: string, v: string, i: int)
    requires IsSet(lockData, Aliases)
    requires ConvertLockAlias(lockData).Success?
    requires 0 <= i < |AliasRows(lockData)|
    requires RowKey(AliasRows(lockData)[i]) == Success((p, v))
    requires forall j :: i < j < |AliasRows(lockData)| ==> RowKey(AliasRows(lockData)[j]) != Success((p, v))
    ensures AliasCell(ConvertLockAlias(lockData).value, p, v) == Some(AliasRecord(AliasRows(lockData)[i]))
  {
    ConvertedCell(lockData, p, v);
    AddAliasesLastWins([], AliasRows(lockData), p, v, i);
  }

  /** A package and version no row names has no cell. */
  lemma ConvertLockAliasNoRow(lockData: Entries<Value>, p: string, v: string)
    requires IsSet(lockData, Aliases)
    requires ConvertLockAlias(lockData).Success?
    requires forall j :: 0 <= j < |AliasRows(lockData)| ==> RowKey(AliasRows(lockData)[j]) != Success((p, v))
    ensures AliasCell(ConvertLockAlias(lockData).value, p, v) == None
  {
    ConvertedCell(lockData, p, v);
    AddAliasesUntouched([], AliasRows(lockData), p, v);
  }

  // ---------------------------------------------------------------------
  // The whole lock data
  // ---------------------------------------------------------------------

  /** `loadLockPackages`: the packages, then the development packages, then
      the aliases. */
  function LoadLockPackages(load: Value -> Value, lockData: Entries<Value>): (r: Result<Entries<Value>>)
    ensures r.Success? ==> Keys(r.value) == Keys(lockData)
    ensures IsSet(lockData, Packages) && !Get(lockData, Packages).value.Arr?
            ==> r == Failure(Foreach(Get(lockData, Packages).value).error)
  {
    var packages :- LoadLockPackage(load, lockData, false);
    var dev :- LoadLockPackage(load, packages, true);
    ConvertLockAlias(dev)
  }

  /** Lock data with none of the three sections set comes back unchanged;
      in particular the empty lock data does. */
  lemma LoadLockPackagesNothingSet(load: Value -> Value, lockData: Entries<Value>)
    requires !IsSet(lockData, Packages) && !IsSet(lockData, PackagesDev) && !IsSet(lockData, Aliases)
    ensures LoadLockPackages(load, lockData) == Success(lockData)
  {
  }

  lemma LoadLockPackagesEmpty(load: Value -> Value)
    ensures LoadLockPackages(load, []) == Success([])
  {
    LoadLockPackagesNothingSet(load, []);
  }

  /** A set section that is not an array raises in its `foreach`: a string
      `packages`, a `false` development section, a number for `aliases`. */
  lemma LoadLockPackagesStringPackages(load: Value -> Value)
    ensures LoadLockPackages(load, [(Packages, Str("x"))])
            == Failure(ErrorException("foreach() argument must be of type array|object, string given"))
  {
    var data := [(Packages, Str("x"))];
    assert Get(data, Packages) == Some(Str("x"));
    assert LoadLockPackage(load, data, false) == Failure(Foreach(Str("x")).error);
  }

  lemma LoadLockPackagesFalseDev(load: Value -> Value)
    ensures LoadLockPackages(load, [(PackagesDev, Bool(false))])
            == Failure(ErrorException("foreach() argument must be of type array|object, bool given"))
  {
    var data := [(PackagesDev, Bool(false))];
    assert Get(data, Packages) == None;
    assert Get(data, PackagesDev) == Some(Bool(false));
    assert LoadLockPackage(load, data, false) == Success(data);
    assert LoadLockPackage(load, data, true) == Failure(Foreach(Bool(false)).error);
  }

  lemma LoadLockPackagesNumberAliases(load: Value -> Value)
    ensures LoadLockPackages(load, [(Aliases, Int(0))])
            == Failure(ErrorException("foreach() argument must be of type array|object, int given"))
  {
    var data := [(Aliases, Int(0))];
    assert Get(data, Packages) == None;
    assert Get(data, PackagesDev) == None;
    assert Get(data, Aliases) == Some(Int(0));
    assert LoadLockPackage(load, data, false) == Success(data);
    assert LoadLockPackage(load, data, true) == Success(data);
  }
}
