/**
 * The registry of enum definitions read from the game cache, and the files generated from it:
 * one JSON file per definition, and Java classes of named constants whose names are the enum's
 * keys (or values), with a minus sign spelled `NEGATIVE_`.
 */
module EnumManager {

  import opened Wrappers
  import opened JavaInt
  import opened MapFold
  import opened Sets

  const NEGATIVE_PREFIX: string := "NEGATIVE_"

  /** An enum definition as the loader decodes it: parallel arrays of keys and of int or string values. */
  datatype EnumDefinition = EnumDefinition(id: int, keys: seq<Int32>, intVals: seq<Int32>, stringVals: Option<seq<string>>)

  /** A file of the enum archive: its id and the definition the loader decodes from its contents. */
  datatype EnumFile = EnumFile(fileId: int, def: Option<EnumDefinition>)

  /** A JSON file written by `exportDef`; the JSON text itself is not modelled. */
  datatype ExportFile = ExportFile(name: string, def: EnumDefinition)

  /** The value of a named constant in a generated class. */
  datatype IdValue = IntValue(i: int) | StringValue(s: string)

  /** One `ids.add(name, value)` call. */
  datatype IdEntry = IdEntry(name: string, value: IdValue)

  /** A generated Java class: its name and its constants in the order they were added. */
  datatype JavaClass = JavaClass(name: string, entries: seq<IdEntry>)

  datatype JavaError =
    | UnknownEnum(enumId: int)          // IllegalArgumentException: no definition under the id
    | ValueIndexOutOfBounds(index: int) // ArrayIndexOutOfBoundsException: fewer values than keys

  // ---------------------------------------------------------------------------------------------
  // Decimal strings and the NEGATIVE_ spelling

  function DigitChar(d: nat): char
    requires d < 10
  {
    "0123456789"[d]
  }

  /** The decimal digits of a natural number, most significant first, without leading zeros. */
  function Digits(n: nat): (s: string)
    ensures |s| >= 1
    ensures forall i :: 0 <= i < |s| ==> '0' <= s[i] <= '9'
    decreases n
  {
    if n < 10 then [DigitChar(n)] else Digits(n / 10) + [DigitChar(n % 10)]
  }

  /** The absolute value of `n`. */
  function Magnitude(n: int): nat
  {
    if n < 0 then -n else n
  }

  /** `String.valueOf(int)`: a minus sign before the digits of a negative number. */
  function IntString(n: int): string
  {
    if n < 0 then "-" + Digits(Magnitude(n)) else Digits(n)
  }

  /** The constant name `java` makes of a number: its decimal string, with a leading `-` replaced by `NEGATIVE_`. */
  function Mangle(n: int): string
  {
    var key := IntString(n);
    if n < 0 then NEGATIVE_PREFIX + key[1..] else key
  }

  /** The value of a string of decimal digits. */
  function ParseDigits(s: string): int
    decreases |s|
  {
    if s == [] then 0 else ParseDigits(s[..|s| - 1]) * 10 + (s[|s| - 1] as int - '0' as int)
  }

  /**
   * Reads a constant name back as the number it was made from: digits never start with the
   * `N` of `NEGATIVE_`, so that letter alone tells the two spellings apart.
   */
  function Unmangle(s: string): int
  {
    if |s| >= |NEGATIVE_PREFIX| && s[0] == 'N' then
      -ParseDigits(s[|NEGATIVE_PREFIX|..])
    else
      ParseDigits(s)
  }

  lemma {:induction false} DigitsRoundTrip(n: nat)
    ensures ParseDigits(Digits(n)) == n
    decreases n
  {
    if n >= 10 {
      var s := Digits(n);
      assert s[..|s| - 1] == Digits(n / 10);
      DigitsRoundTrip(n / 10);
    }
  }

  /**
   * A name is the plain digits of a non-negative number and `NEGATIVE_` followed by the digits
   * of its magnitude for a negative one; it never starts with a minus sign.
   */
  lemma MangleShape(n: int)
    ensures n >= 0 ==> Mangle(n) == Digits(n)
    ensures n < 0 ==> Mangle(n) == NEGATIVE_PREFIX + Digits(Magnitude(n))
    ensures |Mangle(n)| > 0 && Mangle(n)[0] != '-'
  {
    if n < 0 {
      assert ("-" + Digits(Magnitude(n)))[1..] == Digits(Magnitude(n));
    }
  }

  /** A `NEGATIVE_` name is read as the negated value of the digits after the prefix. */
  lemma UnmanglePrefixed(d: string)
    ensures Unmangle(NEGATIVE_PREFIX + d) == -ParseDigits(d)
  {
    var name := NEGATIVE_PREFIX + d;
    assert name[0] == 'N' && name[|NEGATIVE_PREFIX|..] == d;
  }

  /** A name that starts with a digit is read as the value of its digits. */
  lemma UnmangleUnprefixed(d: string)
    requires |d| > 0 && '0' <= d[0] <= '9'
    ensures Unmangle(d) == ParseDigits(d)
  {
  }

  /** A negative number is read back from its `NEGATIVE_` name. */
  lemma MangleRoundTripNegative(n: int)
    requires n < 0
    ensures Unmangle(Mangle(n)) == n
  {
    MangleShape(n);
    UnmanglePrefixed(Digits(Magnitude(n)));
    DigitsRoundTrip(Magnitude(n));
  }

  /** A non-negative number is read back from its digits. */
  lemma MangleRoundTripNonNegative(n: int)
    requires n >= 0
    ensures Unmangle(Mangle(n)) == n
  {
    MangleShape(n);
    UnmangleUnprefixed(Digits(n));
    DigitsRoundTrip(n);
  }

  /** The number can be read back from its name. */
  lemma MangleRoundTrip(n: int)
    ensures Unmangle(Mangle(n)) == n
  {
    if n < 0 {
      MangleRoundTripNegative(n);
    } else {
      MangleRoundTripNonNegative(n);
    }
  }

  /** `Integer.parseInt` on what `String.valueOf(int)` writes: an optional minus sign, then digits. */
  function ParseIntString(s: string): int
  {
    if |s| > 0 && s[0] == '-' then -ParseDigits(s[1..]) else ParseDigits(s)
  }

  /** The decimal string of a number reads back as that number. */
  lemma IntStringRoundTrip(n: int)
    ensures ParseIntString(IntString(n)) == n
  {
    DigitsRoundTrip(Magnitude(n));
    if n < 0 {
      assert IntString(n)[1..] == Digits(Magnitude(n));
    }
  }

  /** Distinct numbers get distinct names. */
  lemma MangleInjective(a: int, b: int)
    requires Mangle(a) == Mangle(b)
    ensures a == b
  {
    MangleRoundTrip(a);
    MangleRoundTrip(b);
  }

  // ---------------------------------------------------------------------------------------------
  // Generated files and classes

  /** `exportDef`: the definition goes to a `.json` file whose base name reads back as its id. */
  function ExportDef(def: EnumDefinition): (f: ExportFile)
    ensures f.def == def
    ensures |f.name| > 5 && f.name[|f.name| - 5..] == ".json"
    ensures ParseIntString(f.name[..|f.name| - 5]) == def.id
  {
    var stem := IntString(def.id);
    IntStringRoundTrip(def.id);
    assert (stem + ".json")[..|stem|] == stem;
    ExportFile(stem + ".json", def)
  }

  /** Definitions with distinct ids are exported to distinct files. */
  lemma ExportNamesDistinct(a: EnumDefinition, b: EnumDefinition)
    requires a.id != b.id
    ensures ExportDef(a).name != ExportDef(b).name
  {
  }

  /** The class name `javaAll` gives the enum with this id. */
  function ClassName(id: int, reversed: bool): string
  {
    "Enum" + IntString(id) + if reversed then "Reversed" else ""
  }

  /** How many values `java` can index: the string values when there are any, else the int values. */
  function ValueCount(def: EnumDefinition): nat
  {
    if def.stringVals.Some? then |def.stringVals.value| else |def.intVals|
  }

  /** The constant `java` adds for index `i`. */
  function EntryAt(def: EnumDefinition, i: nat, reversed: bool): IdEntry
    requires i < |def.keys| && i < ValueCount(def)
  {
    if !reversed then
      IdEntry(Mangle(def.keys[i]),
        if def.stringVals.Some? then StringValue(def.stringVals.value[i]) else IntValue(def.intVals[i]))
    else if def.stringVals.None? then
      IdEntry(Mangle(def.intVals[i]), IntValue(def.keys[i]))
    else
      IdEntry(def.stringVals.value[i], IntValue(def.keys[i]))
  }

  /** What `java` produces for a definition found (or not) under the requested id. */
  function JavaClassOf(def: Option<EnumDefinition>, enumId: int, className: string, reversed: bool): Result<JavaClass, JavaError>
  {
    if def.None? then Failure(UnknownEnum(enumId))
    else if ValueCount(def.value) < |def.value.keys| then Failure(ValueIndexOutOfBounds(ValueCount(def.value)))
    else
      Success(JavaClass(className,
        seq(|def.value.keys|, i requires 0 <= i < |def.value.keys| => EntryAt(def.value, i, reversed))))
  }

  /**
   * A generated class has one constant per key, in key order. Unreversed, constant `i` is named
   * after key `i` (read back by `Unmangle`) and holds value `i`; reversed, it holds key `i` and is
   * named after value `i`, mangled for int values and verbatim for string values.
   */
  lemma JavaClassEntries(def: EnumDefinition, enumId: int, className: string, reversed: bool)
    requires ValueCount(def) >= |def.keys|
    ensures var r := JavaClassOf(Some(def), enumId, className, reversed);
      && r.Success? && r.value.name == className && |r.value.entries| == |def.keys|
      && (forall i :: 0 <= i < |def.keys| && !reversed ==>
            Unmangle(r.value.entries[i].name) == def.keys[i]
            && r.value.entries[i].value == (if def.stringVals.Some? then StringValue(def.stringVals.value[i]) else IntValue(def.intVals[i])))
      && (forall i :: 0 <= i < |def.keys| && reversed && def.stringVals.None? ==>
            Unmangle(r.value.entries[i].name) == def.intVals[i] && r.value.entries[i].value == IntValue(def.keys[i]))
      && (forall i :: 0 <= i < |def.keys| && reversed && def.stringVals.Some? ==>
            r.value.entries[i] == IdEntry(def.stringVals.value[i], IntValue(def.keys[i])))
  {
    var r := JavaClassOf(Some(def), enumId, className, reversed);
    forall i | 0 <= i < |def.keys|
      ensures !reversed ==> Unmangle(r.value.entries[i].name) == def.keys[i]
      ensures reversed && def.stringVals.None? ==> Unmangle(r.value.entries[i].name) == def.intVals[i]
    {
      MangleRoundTrip(def.keys[i]);
      if def.stringVals.None? {
        MangleRoundTrip(def.intVals[i]);
      }
    }
  }

  /** Unreversed, distinct keys give distinct constant names. */
  lemma JavaNamesDistinct(def: EnumDefinition, enumId: int, className: string)
    requires ValueCount(def) >= |def.keys|
    requires forall i, j :: 0 <= i < j < |def.keys| ==> def.keys[i] != def.keys[j]
    ensures var r := JavaClassOf(Some(def), enumId, className, false);
      r.Success? && forall i, j :: 0 <= i < j < |r.value.entries| ==> r.value.entries[i].name != r.value.entries[j].name
  {
    var r := JavaClassOf(Some(def), enumId, className, false);
    forall i, j | 0 <= i < j < |r.value.entries|
      ensures r.value.entries[i].name != r.value.entries[j].name
    {
      if r.value.entries[i].name == r.value.entries[j].name {
        MangleInjective(def.keys[i], def.keys[j]);
      }
    }
  }

  /** `getEnum`: the definition under the id, or null when there is none. */
  function Lookup(enums: map<int, Option<EnumDefinition>>, enumId: int): (r: Option<EnumDefinition>)
    ensures r.Some? ==> enumId in enums && enums[enumId] == r
    ensures enumId !in enums ==> r == None
  {
    if enumId in enums then enums[enumId] else None
  }

  /** The ids whose definition is not null: the ones `exportAll` and `javaAll` process. */
  function NonNullIds(enums: map<int, Option<EnumDefinition>>): (ids: set<int>)
    ensures forall k :: k in ids <==> k in enums && enums[k].Some?
  {
    set k | k in enums && enums[k].Some?
  }

  /** The `(id, definition)` pairs `load` puts into the map, in archive order. */
  function LoadEntries(files: seq<EnumFile>): (es: seq<(int, Option<EnumDefinition>)>)
    ensures |es| == |files|
    ensures forall i :: 0 <= i < |files| ==> es[i] == (files[i].fileId, files[i].def)
  {
    seq(|files|, i requires 0 <= i < |files| => (files[i].fileId, files[i].def))
  }

  /** After `load`, an id holds the definition of the last file with that id. */
  lemma LoadedIsLastFile(enums: map<int, Option<EnumDefinition>>, files: seq<EnumFile>, j: nat)
    requires j < |files|
    requires forall i :: j < i < |files| ==> files[i].fileId != files[j].fileId
    ensures Lookup(PutAll(enums, LoadEntries(files)), files[j].fileId) == files[j].def
  {
    PutAllLastWins(enums, LoadEntries(files), j);
  }

  /** After `load`, an id no file carries is looked up as before: null on a fresh registry. */
  lemma LoadKeepsOthers(enums: map<int, Option<EnumDefinition>>, files: seq<EnumFile>, enumId: int)
    requires forall i :: 0 <= i < |files| ==> files[i].fileId != enumId
    ensures Lookup(PutAll(enums, LoadEntries(files)), enumId) == Lookup(enums, enumId)
  {
    PutAllKeepsUnmentioned(enums, LoadEntries(files), enumId);
  }

  /** What `javaAll` generates for one definition: `java` on the definition's own id, under `ClassName`. */
  function JavaFor(enums: map<int, Option<EnumDefinition>>, def: EnumDefinition, reversed: bool): Result<JavaClass, JavaError>
  {
    JavaClassOf(Lookup(enums, def.id), def.id, ClassName(def.id, reversed), reversed)
  }

  /** The i-th class is what `javaAll` generates for the definition under the i-th id. */
  ghost predicate GeneratedFor(enums: map<int, Option<EnumDefinition>>, ids: seq<int>, classes: seq<JavaClass>, reversed: bool)
  {
    |ids| == |classes| &&
    forall i :: 0 <= i < |ids| ==>
      ids[i] in NonNullIds(enums) && JavaFor(enums, enums[ids[i]].value, reversed) == Success(classes[i])
  }

  /** Appending one more generated class keeps the pairing of ids and classes. */
  lemma GeneratedForAppend(enums: map<int, Option<EnumDefinition>>, ids: seq<int>, classes: seq<JavaClass>,
                           reversed: bool, k: int, c: JavaClass)
    requires GeneratedFor(enums, ids, classes, reversed)
    requires k in NonNullIds(enums) && JavaFor(enums, enums[k].value, reversed) == Success(c)
    ensures GeneratedFor(enums, ids + [k], classes + [c], reversed)
  {
    var ids', classes' := ids + [k], classes + [c];
    forall i | 0 <= i < |ids'|
      ensures ids'[i] in NonNullIds(enums) && JavaFor(enums, enums[ids'[i]].value, reversed) == Success(classes'[i])
    {
      if i < |ids| {
        assert ids'[i] == ids[i] && classes'[i] == classes[i];
      }
    }
  }

  /** Taking `k` out of the ids still to visit adds it to the visited non-null ids exactly when its definition is non-null. */
  lemma NonNullStep(enums: map<int, Option<EnumDefinition>>, rest: set<int>, k: int)
    requires k in rest && rest <= enums.Keys
    ensures enums[k].None? ==> NonNullIds(enums) - (rest - {k}) == NonNullIds(enums) - rest
    ensures enums[k].Some? ==> NonNullIds(enums) - (rest - {k}) == (NonNullIds(enums) - rest) + {k}
    ensures k !in NonNullIds(enums) - rest
    ensures |NonNullIds(enums) - (rest - {k})| == |NonNullIds(enums) - rest| + if enums[k].Some? then 1 else 0
  {
    var done := NonNullIds(enums) - rest;
    if enums[k].Some? {
      assert NonNullIds(enums) - (rest - {k}) == done + {k};
    } else {
      assert NonNullIds(enums) - (rest - {k}) == done;
    }
  }

  /**
   * The files `exportAll` has written for the visited non-null ids `done`: each id of `done`
   * exactly once, in the order visited, the i-th file being the export of the i-th id's definition.
   */
  ghost predicate ExportedFor(enums: map<int, Option<EnumDefinition>>, done: set<int>, ids: seq<int>, files: seq<ExportFile>)
  {
    && |ids| == |files|
    && (forall k :: k in done <==> k in ids)
    && (forall i :: 0 <= i < |ids| ==> ids[i] in NonNullIds(enums) && files[i] == ExportDef(enums[ids[i]].value))
    && (forall i, j :: 0 <= i < j < |ids| ==> ids[i] != ids[j])
  }

  /** Exporting one more non-null definition not yet visited extends the pairing. */
  lemma ExportedForAppend(enums: map<int, Option<EnumDefinition>>, done: set<int>, ids: seq<int>, files: seq<ExportFile>, k: int)
    requires ExportedFor(enums, done, ids, files)
    requires k in NonNullIds(enums) && k !in done
    ensures ExportedFor(enums, done + {k}, ids + [k], files + [ExportDef(enums[k].value)])
  {
    var ids', files' := ids + [k], files + [ExportDef(enums[k].value)];
    forall i | 0 <= i < |ids'|
      ensures ids'[i] in NonNullIds(enums) && files'[i] == ExportDef(enums[ids'[i]].value)
    {
      if i < |ids| {
        assert ids'[i] == ids[i] && files'[i] == files[i];
      }
    }
  }

  /** Once every non-null id is visited, each definition's file is among the files and each file is one of theirs. */
  lemma ExportedEvery(enums: map<int, Option<EnumDefinition>>, ids: seq<int>, files: seq<ExportFile>)
    requires ExportedFor(enums, NonNullIds(enums), ids, files)
    ensures forall k :: k in NonNullIds(enums) ==> ExportDef(enums[k].value) in files
    ensures forall f :: f in files ==> exists k :: k in NonNullIds(enums) && f == ExportDef(enums[k].value)
  {
    forall k | k in NonNullIds(enums)
      ensures ExportDef(enums[k].value) in files
    {
      var i :| 0 <= i < |ids| && ids[i] == k;
      assert files[i] == ExportDef(enums[k].value);
    }
    forall f | f in files
      ensures exists k :: k in NonNullIds(enums) && f == ExportDef(enums[k].value)
    {
      var i :| 0 <= i < |files| && files[i] == f;
      assert ids[i] in NonNullIds(enums) && f == ExportDef(enums[ids[i]].value);
    }
  }

  /** `entries` are the constants `java` adds for the first `|entries|` indices. */
  ghost predicate EntriesSoFar(def: EnumDefinition, entries: seq<IdEntry>, reversed: bool)
  {
    && |entries| <= |def.keys| && |entries| <= ValueCount(def)
    && forall j :: 0 <= j < |entries| ==> entries[j] == EntryAt(def, j, reversed)
  }

  /** Adding the constant for the next index extends the entries so far. */
  lemma EntriesSoFarAppend(def: EnumDefinition, entries: seq<IdEntry>, reversed: bool, entry: IdEntry)
    requires EntriesSoFar(def, entries, reversed)
    requires |entries| < |def.keys| && |entries| < ValueCount(def)
    requires entry == EntryAt(def, |entries|, reversed)
    ensures EntriesSoFar(def, entries + [entry], reversed)
  {
    var extended := entries + [entry];
    forall j | 0 <= j < |extended|
      ensures extended[j] == EntryAt(def, j, reversed)
    {
      if j < |entries| {
        assert extended[j] == entries[j];
      }
    }
  }

  /** A class built entry by entry from `EntryAt` is the one `JavaClassOf` describes. */
  lemma JavaClassOfEntries(def: EnumDefinition, enumId: int, className: string, reversed: bool, entries: seq<IdEntry>)
    requires EntriesSoFar(def, entries, reversed) && |entries| == |def.keys|
    ensures JavaClassOf(Some(def), enumId, className, reversed) == Success(JavaClass(className, entries))
  {
    assert ValueCount(def) >= |def.keys|;
    var built := seq(|def.keys|, i requires 0 <= i < |def.keys| => EntryAt(def, i, reversed));
    assert JavaClassOf(Some(def), enumId, className, reversed) == Success(JavaClass(className, built));
    assert |built| == |entries|;
    assert forall j :: 0 <= j < |entries| ==> built[j] == entries[j];
    assert built == entries;
  }

  /** `primToObj`: box each int into a fresh array of the same length. */
  method PrimToObj(ary: seq<Int32>) returns (retn: array<int>)
    ensures fresh(retn)
    ensures retn.Length == |ary|
    ensures forall i :: 0 <= i < |ary| ==> retn[i] == ary[i]
  {
    retn := new int[|ary|];
    for i := 0 to |ary|
      invariant forall j :: 0 <= j < i ==> retn[j] == ary[j]
    {
      retn[i] := ary[i];
    }
  }

  class EnumManager {
    var enums: map<int, Option<EnumDefinition>>

    constructor ()
      ensures enums == map[]
    {
      enums := map[];
    }

    /** `load`: every file of the enum archive, in order, is put into the map under its file id. */
    method Load(files: seq<EnumFile>)
      modifies this
      ensures enums == PutAll(old(enums), LoadEntries(files))
    {
      for i := 0 to |files|
        invariant enums == PutAll(old(enums), LoadEntries(files[..i]))
      {
        assert LoadEntries(files[..i + 1]) == LoadEntries(files[..i]) + [(files[i].fileId, files[i].def)];
        PutAllAppend(old(enums), LoadEntries(files[..i]), files[i].fileId, files[i].def);
        enums := enums[files[i].fileId := files[i].def];
      }
      assert files[..|files|] == files;
    }

    /** `getEnum`: `enums.get(enumId)`. */
    function GetEnum(enumId: int): (r: Option<EnumDefinition>)
      reads this
      ensures enumId in enums ==> r == enums[enumId]
      ensures enumId !in enums ==> r == None
    {
      Lookup(enums, enumId)
    }

    /** `exportOne`: the file for the definition under the id, or nothing when there is none. */
    function ExportOne(enumId: int): (r: Option<ExportFile>)
      reads this
      ensures r.None? <==> Lookup(enums, enumId).None?
      ensures r.Some? ==> r.value == ExportDef(Lookup(enums, enumId).value)
    {
      var def := GetEnum(enumId);
      if def.None? then None else Some(ExportDef(def.value))
    }

    /**
     * `exportAll`: one file per non-null definition, in the map's iteration order, and the count
     * of files written.
     */
    method ExportAll() returns (files: seq<ExportFile>, count: int, ghost ids: seq<int>)
      ensures count == |files| == |NonNullIds(enums)|
      ensures forall k :: k in NonNullIds(enums) ==> ExportDef(enums[k].value) in files
      ensures forall f :: f in files ==> exists k :: k in NonNullIds(enums) && f == ExportDef(enums[k].value)
      ensures ExportedFor(enums, NonNullIds(enums), ids, files)
    {
      files, count, ids := [], 0, [];
      var rest := enums.Keys;
      while rest != {}
        invariant rest <= enums.Keys
        invariant count == |files| == |NonNullIds(enums) - rest|
        invariant ExportedFor(enums, NonNullIds(enums) - rest, ids, files)
        decreases |rest|
      {
        ghost var member := Pick(rest);
        var k :| k in rest;
        var def := enums[k];
        NonNullStep(enums, rest, k);
        rest := rest - {k};
        if def.None? {
          continue;
        }
        ExportedForAppend(enums, NonNullIds(enums) - (rest + {k}), ids, files, k);
        files := files + [ExportDef(def.value)];
        ids := ids + [k];
        count := count + 1;
      }
      ExportedEvery(enums, ids, files);
    }

    /**
     * `java`: the class of constants for the definition under `enumId`; unknown ids and value
     * arrays shorter than the key array fail.
     */
    method Java(enumId: int, className: string, reversed: bool) returns (r: Result<JavaClass, JavaError>)
      ensures r == JavaClassOf(Lookup(enums, enumId), enumId, className, reversed)
    {
      var found := GetEnum(enumId);
      if found.None? {
        return Failure(UnknownEnum(enumId));
      }
      var def := found.value;
      var keys := def.keys;
      var strings := def.stringVals.Some?;
      var boxed := PrimToObj(def.intVals);
      var valueCount := if strings then |def.stringVals.value| else boxed.Length;
      var entries: seq<IdEntry> := [];
      for i := 0 to |keys|
        invariant |entries| == i
        invariant EntriesSoFar(def, entries, reversed)
        invariant forall j :: 0 <= j < boxed.Length ==> boxed[j] == def.intVals[j]
      {
        if i >= valueCount {
          return Failure(ValueIndexOutOfBounds(i));
        }
        var entry := EntryFor(def, boxed, i, reversed);
        EntriesSoFarAppend(def, entries, reversed, entry);
        entries := entries + [entry];
      }
      JavaClassOfEntries(def, enumId, className, reversed, entries);
      return Success(JavaClass(className, entries));
    }

    /** The body of `java`'s loop for index `i`: the name and value of one constant. */
    static method EntryFor(def: EnumDefinition, boxed: array<int>, i: nat, reversed: bool) returns (entry: IdEntry)
      requires boxed.Length == |def.intVals| && forall j :: 0 <= j < boxed.Length ==> boxed[j] == def.intVals[j]
      requires i < |def.keys| && i < ValueCount(def)
      ensures entry == EntryAt(def, i, reversed)
    {
      var strings := def.stringVals.Some?;
      if !reversed {
        var key := IntString(def.keys[i]);
        if def.keys[i] < 0 {
          key := NEGATIVE_PREFIX + key[1..];
        }
        entry := IdEntry(key, if strings then StringValue(def.stringVals.value[i]) else IntValue(boxed[i]));
      } else if !strings {
        var key := IntString(boxed[i]);
        if boxed[i] < 0 {
          key := NEGATIVE_PREFIX + key[1..];
        }
        entry := IdEntry(key, IntValue(def.keys[i]));
      } else {
        entry := IdEntry(def.stringVals.value[i], IntValue(def.keys[i]));
      }
    }

    /** One step of `javaAll`: `java` for the definition stored under `k`, looked up again by its own id. */
    method JavaOne(k: int, reversed: bool) returns (generated: Result<JavaClass, JavaError>)
      requires k in NonNullIds(enums)
      ensures generated == JavaFor(enums, enums[k].value, reversed)
    {
      var def := enums[k].value;
      generated := Java(def.id, ClassName(def.id, reversed), reversed);
    }

    /**
     * `javaAll`: one class per non-null definition, counted; the first definition whose class
     * cannot be generated aborts the run with that error.
     */
    method JavaAll(reversed: bool) returns (r: Result<seq<JavaClass>, JavaError>, count: int, ghost ids: seq<int>)
      ensures r.Success? <==> forall k :: k in NonNullIds(enums) ==> JavaFor(enums, enums[k].value, reversed).Success?
      ensures r.Failure? ==> exists k :: k in NonNullIds(enums) && JavaFor(enums, enums[k].value, reversed) == Failure(r.error)
      ensures r.Success? ==> count == |r.value| == |ids| == |NonNullIds(enums)|
      ensures r.Success? ==> forall k :: k in NonNullIds(enums) <==> k in ids
      ensures r.Success? ==> GeneratedFor(enums, ids, r.value, reversed)
    {
      var classes: seq<JavaClass> := [];
      ids := [];
      count := 0;
      var rest := enums.Keys;
      while rest != {}
        invariant rest <= enums.Keys
        invariant count == |classes| == |ids| == |NonNullIds(enums) - rest|
        invariant forall k :: k in NonNullIds(enums) - rest ==> k in ids
        invariant GeneratedFor(enums, ids, classes, reversed)
        decreases |rest|
      {
        ghost var member := Pick(rest);
        var k :| k in rest;
        var def := enums[k];
        NonNullStep(enums, rest, k);
        rest := rest - {k};
        if def.None? {
          continue;
        }
        var generated := JavaOne(k, reversed);
        if generated.Failure? {
          return Failure(generated.error), count, ids;
        }
        GeneratedForAppend(enums, ids, classes, reversed, k, generated.value);
        classes := classes + [generated.value];
        ids := ids + [k];
        count := count + 1;
      }
      return Success(classes), count, ids;
    }
  }
}
