/**
 * The catalog: the registry of tables, keyed by the identifier of the file
 * each table is stored in, with a name and a primary-key field per table; and
 * the parser of one line of a schema file.
 */
module CatalogRegistry {
  import opened Types
  import opened JavaStrings

  /** The file of a table as the catalog sees it: its identifier (getId) and its schema. */
  datatype DbFile = DbFile(id: int, desc: TupleDesc)

  /** Catalog.Table. */
  datatype Table = Table(file: DbFile, name: string, pkeyField: string)

  /** NoSuchElementException from the lookups. */
  datatype CatalogError = NoSuchElement

  type Tables = map<int, Table>

  /** The tables that keep their entry when a table named `name` is added. */
  function WithoutName(m: Tables, name: string): (r: Tables)
    ensures forall k :: k in r <==> k in m && m[k].name != name
    ensures forall k :: k in r ==> r[k] == m[k]
  {
    map k | k in m && m[k].name != name :: m[k]
  }

  /** The table map after addTable(file, name, pkeyField). */
  function Added(m: Tables, file: DbFile, name: string, pkeyField: string): Tables {
    WithoutName(m, name)[file.id := Table(file, name, pkeyField)]
  }

  /** Some table is called `name`. */
  predicate HasName(m: Tables, name: string) {
    exists k :: k in m && m[k].name == name
  }

  predicate UniqueNames(m: Tables) {
    forall i, j :: i in m && j in m && m[i].name == m[j].name ==> i == j
  }

  /** Every table is filed under its own file's identifier. */
  predicate KeyedByFile(m: Tables) {
    forall k :: k in m ==> m[k].file.id == k
  }

  /**
   * After addTable(f, n, pk) the table is filed under f's identifier and is
   * the only table called n; the tables of other names keep their entries,
   * except one filed under f's identifier, which is replaced.
   */
  lemma AddTableRegistersLast(m: Tables, f: DbFile, n: string, pk: string)
    ensures var m' := Added(m, f, n, pk);
            && f.id in m' && m'[f.id] == Table(f, n, pk)
            && (forall k :: k in m' && m'[k].name == n ==> k == f.id)
            && (forall k :: k in m' <==> k == f.id || (k in m && m[k].name != n))
            && (forall k :: k in m' && k != f.id ==> m'[k] == m[k])
  {
  }

  /** addTable keeps every table filed under its own file and the names unique. */
  lemma AddTableKeepsInvariant(m: Tables, f: DbFile, n: string, pk: string)
    requires KeyedByFile(m) && UniqueNames(m)
    ensures KeyedByFile(Added(m, f, n, pk)) && UniqueNames(Added(m, f, n, pk))
  {
    var m' := Added(m, f, n, pk);
    forall i, j | i in m' && j in m' && m'[i].name == m'[j].name
      ensures i == j
    {
      if i != f.id && j != f.id {
        assert m'[i] == m[i] && m'[j] == m[j];
      }
    }
  }

  /** Two table maps with the same identifiers and the same entries are equal. */
  lemma SameTables(a: Tables, b: Tables)
    requires forall k :: k in a <==> k in b
    requires forall k :: k in a ==> a[k] == b[k]
    ensures a == b
  {
    forall k | k in a ensures k in b { }
    forall k | k in b ensures k in a { }
    assert a.Keys == b.Keys;
    forall k | k in a ensures a[k] == b[k] { }
  }

  lemma HasMember(s: set<int>)
    requires s != {}
    ensures exists x :: x in s
  {
    if forall x :: x !in s {
      assert false;
    }
  }

  class Catalog {
    var tables: Tables

    ghost predicate Valid()
      reads this
    {
      KeyedByFile(tables) && UniqueNames(tables)
    }

    /** A new, empty catalog. */
    constructor ()
      ensures Valid() && tables == map[]
    {
      tables := map[];
    }

    /**
     * addTable(file, name, pkeyField): every table already called `name` is
     * removed, then the table is filed under the file's identifier.
     */
    method AddTable(file: DbFile, name: string, pkeyField: string)
      requires Valid()
      modifies this
      ensures Valid()
      ensures tables == Added(old(tables), file, name, pkeyField)
    {
      var pending := tables.Keys;
      ghost var start := tables;
      while pending != {}
        invariant pending <= start.Keys
        invariant forall k :: k in tables <==> k in start && (k in pending || start[k].name != name)
        invariant forall k :: k in tables ==> tables[k] == start[k]
        decreases |pending|
      {
        HasMember(pending);
        var k :| k in pending;
        if tables[k].name == name {
          tables := tables - {k};
        }
        pending := pending - {k};
      }
      SameTables(tables, WithoutName(start, name));
      tables := tables[file.id := Table(file, name, pkeyField)];
      AddTableKeepsInvariant(start, file, name, pkeyField);
    }

    /** addTable(file, name): no primary key. */
    method AddTableWithoutKey(file: DbFile, name: string)
      requires Valid()
      modifies this
      ensures Valid()
      ensures tables == Added(old(tables), file, name, "")
    {
      AddTable(file, name, "");
    }

    /** addTable(file): no name and no primary key. */
    method AddAnonymousTable(file: DbFile)
      requires Valid()
      modifies this
      ensures Valid()
      ensures tables == Added(old(tables), file, "", "")
    {
      AddTableWithoutKey(file, "");
    }

    /** getTableId: the identifier of a table with that name, NoSuchElement when there is none. */
    method GetTableId(name: string) returns (r: Result<int, CatalogError>)
      ensures r.Ok? <==> HasName(tables, name)
      ensures r.Ok? ==> r.value in tables && tables[r.value].name == name
    {
      var pending := tables.Keys;
      while pending != {}
        invariant pending <= tables.Keys
        invariant forall k :: k in tables && k !in pending ==> tables[k].name != name
        decreases |pending|
      {
        HasMember(pending);
        var k :| k in pending;
        if tables[k].name == name {
          return Ok(k);
        }
        pending := pending - {k};
      }
      r := Err(NoSuchElement);
    }

    /** getTupleDesc: the schema of the table's file. */
    function GetTupleDesc(tableid: int): (r: Result<TupleDesc, CatalogError>)
      reads this
      requires Valid()
      ensures r.Ok? <==> tableid in tables
      ensures r.Ok? ==> r.value == tables[tableid].file.desc && tables[tableid].file.id == tableid
    {
      if tableid in tables then Ok(tables[tableid].file.desc) else Err(NoSuchElement)
    }

    /** getDatabaseFile: the file the table is stored in; its identifier is the one asked for. */
    function GetDatabaseFile(tableid: int): (r: Result<DbFile, CatalogError>)
      reads this
      requires Valid()
      ensures r.Ok? <==> tableid in tables
      ensures r.Ok? ==> r.value.id == tableid
    {
      if tableid in tables then Ok(tables[tableid].file) else Err(NoSuchElement)
    }

    /** getPrimaryKey. */
    function GetPrimaryKey(tableid: int): (r: Result<string, CatalogError>)
      reads this
      ensures r.Ok? <==> tableid in tables
    {
      if tableid in tables then Ok(tables[tableid].pkeyField) else Err(NoSuchElement)
    }

    /** getTableName: under unique names, the name leads back to the same identifier and no other. */
    function GetTableName(id: int): (r: Result<string, CatalogError>)
      reads this
      requires Valid()
      ensures r.Ok? <==> id in tables
      ensures r.Ok? ==> forall k :: k in tables && tables[k].name == r.value ==> k == id
    {
      if id in tables then Ok(tables[id].name) else Err(NoSuchElement)
    }

    /** tableIdIterator, as the set of identifiers it visits: exactly those the lookups by identifier accept. */
    function TableIds(): (ids: set<int>)
      reads this
      ensures forall id :: id in ids <==> GetPrimaryKey(id).Ok?
    {
      tables.Keys
    }

    /** clear: no tables remain. */
    method Clear()
      modifies this
      ensures Valid() && tables == map[] && TableIds() == {}
    {
      tables := map[];
    }

    /**
     * One line of loadSchema: parse it, then add a heap file with the parsed
     * schema under the parsed name and primary key. The file's identifier,
     * a hash of its path, is the parameter fileId.
     */
    method LoadSchemaLine(line: string, fileId: int) returns (r: Result<SchemaLine, ParseError>)
      requires Valid()
      modifies this
      ensures Valid()
      ensures r == SchemaOf(line)
      ensures r.Ok? ==> tables == Added(old(tables), DbFile(fileId, r.value.types), r.value.name, r.value.primaryKey)
      ensures r.Err? ==> tables == old(tables)
    {
      r := ParseSchemaLine(line);
      if r.Ok? {
        AddTable(DbFile(fileId, r.value.types), r.value.name, r.value.primaryKey);
      }
    }
  }

  /** After addTable(f, n, pk) every getter answers with what was added. */
  lemma GettersAfterAddTable(c: Catalog, m: Tables, f: DbFile, n: string, pk: string)
    requires c.Valid() && c.tables == Added(m, f, n, pk)
    ensures c.GetTupleDesc(f.id) == Ok(f.desc)
    ensures c.GetDatabaseFile(f.id) == Ok(f)
    ensures c.GetPrimaryKey(f.id) == Ok(pk)
    ensures c.GetTableName(f.id) == Ok(n)
    ensures HasName(c.tables, n)
    ensures forall k :: k in c.tables && c.tables[k].name == n ==> k == f.id
  {
    AddTableRegistersLast(m, f, n, pk);
  }

  // ---------------------------------------------------------------------------
  // Schema lines

  /** How loadSchema gives up on a line (it prints a message and exits). */
  datatype ParseError =
    | InvalidEntry        // an IndexOutOfBoundsException: no "(", no ")" after it, or a field without a type
    | UnknownType         // a type other than int or string
    | UnknownAnnotation   // a third word other than pk

  /** One field of a schema line: `name type` or `name type pk`. */
  datatype FieldSpec = FieldSpec(name: string, fieldType: Type, isKey: bool)

  /** A parsed line: the table name, the column names and types, and the primary key ("" for none). */
  datatype SchemaLine = SchemaLine(name: string, fieldNames: seq<string>, types: seq<Type>, primaryKey: string)

  /** The type named by a keyword, matched ignoring case. */
  function TypeOf(word: string): Option<Type> {
    if EqualsIgnoreCase(word, "int") then Some(IntType)
    else if EqualsIgnoreCase(word, "string") then Some(StringType)
    else None
  }

  /** One comma-separated field: split on single spaces; the second word is the type, a third word must be pk. */
  function ParseField(e: string): (r: Result<FieldSpec, ParseError>)
    ensures r.Ok? ==> ' ' !in r.value.name
  {
    var words := Split(Trim(e), ' ');
    if |words| < 2 then Err(InvalidEntry)
    else
      var name := Trim(words[0]);
      TrimKeepsTheMiddle(words[0]);
      assert forall k :: 0 <= k < |name| ==> name[k] == words[0][LeadingBlanks(words[0]) + k];
      match TypeOf(Trim(words[1]))
      case None => Err(UnknownType)
      case Some(t) =>
        if |words| == 3 && Trim(words[2]) != "pk" then Err(UnknownAnnotation)
        else Ok(FieldSpec(name, t, |words| == 3))
  }

  /** Each comma-separated text parsed on its own. */
  function FieldResults(els: seq<string>): (rs: seq<Result<FieldSpec, ParseError>>)
    ensures |rs| == |els| && forall k :: 0 <= k < |els| ==> rs[k] == ParseField(els[k])
  {
    seq(|els|, k requires 0 <= k < |els| => ParseField(els[k]))
  }

  /** The parsed fields in order, or the error of the first field that fails. */
  function Collect(rs: seq<Result<FieldSpec, ParseError>>): (r: Result<seq<FieldSpec>, ParseError>)
    ensures r.Ok? ==> |r.value| == |rs|
  {
    if rs == [] then Ok([])
    else
      match Collect(rs[..|rs| - 1])
      case Err(e) => Err(e)
      case Ok(specs) =>
        match rs[|rs| - 1]
        case Err(e) => Err(e)
        case Ok(f) => Ok(specs + [f])
  }

  /** The fields of a schema line, or the error of the first field that fails. */
  function ParseFields(els: seq<string>): (r: Result<seq<FieldSpec>, ParseError>)
    ensures r.Ok? ==> |r.value| == |els|
  {
    Collect(FieldResults(els))
  }

  /** The name of the last field marked pk, or "" when none is. */
  function PrimaryKeyOf(specs: seq<FieldSpec>): (pk: string)
    ensures pk == "" || exists k :: 0 <= k < |specs| && specs[k].isKey && specs[k].name == pk
  {
    if specs == [] then ""
    else if specs[|specs| - 1].isKey then specs[|specs| - 1].name
    else
      var pk := PrimaryKeyOf(specs[..|specs| - 1]);
      assert pk != "" ==> exists k :: 0 <= k < |specs| - 1 && specs[k].isKey && specs[k].name == pk;
      pk
  }

  function NamesOf(specs: seq<FieldSpec>): seq<string> {
    seq(|specs|, i requires 0 <= i < |specs| => specs[i].name)
  }

  function TypesOf(specs: seq<FieldSpec>): seq<Type> {
    seq(|specs|, i requires 0 <= i < |specs| => specs[i].fieldType)
  }

  /**
   * The trimmed name before the first "(" and the trimmed text between it and
   * the first ")" of the line, split on commas; None when there is no "(" or
   * the first ")" does not follow it (substring then throws).
   */
  function FieldTexts(line: string): Option<(string, seq<string>)> {
    var open := IndexOf(line, '(');
    var close := IndexOf(line, ')');
    if open < 0 || close < open + 1 then None
    else Some((Trim(line[..open]), Split(Trim(line[open + 1..close]), ',')))
  }

  /**
   * The table a schema line describes: the name is the trimmed text before
   * the first "(", the fields are the comma-separated text up to the first
   * ")" of the line.
   */
  function SchemaOf(line: string): Result<SchemaLine, ParseError> {
    match FieldTexts(line)
    case None => Err(InvalidEntry)
    case Some((name, els)) =>
      match ParseFields(els)
      case Err(e) => Err(e)
      case Ok(specs) => Ok(SchemaLine(name, NamesOf(specs), TypesOf(specs), PrimaryKeyOf(specs)))
  }

  /** Once a field fails, the fields after it no longer matter. */
  lemma {:induction false} FirstErrorSticks(rs: seq<Result<FieldSpec, ParseError>>, i: nat)
    requires i <= |rs| && Collect(rs[..i]).Err?
    ensures Collect(rs) == Collect(rs[..i])
    decreases |rs| - i
  {
    if i < |rs| {
      var longer := rs[..i + 1];
      assert longer[..|longer| - 1] == rs[..i];
      assert Collect(longer) == Collect(rs[..i]);
      FirstErrorSticks(rs, i + 1);
    } else {
      assert rs[..i] == rs;
    }
  }

  /** A field that parses is appended to the fields before it. */
  lemma CollectStep(rs: seq<Result<FieldSpec, ParseError>>, i: nat)
    requires i < |rs| && Collect(rs[..i]).Ok? && rs[i].Ok?
    ensures Collect(rs[..i + 1]) == Ok(Collect(rs[..i]).value + [rs[i].value])
  {
    var longer := rs[..i + 1];
    assert longer[..|longer| - 1] == rs[..i];
  }

  /** The first field that fails decides the error of the whole list. */
  lemma FailingFieldEndsCollect(rs: seq<Result<FieldSpec, ParseError>>, i: nat)
    requires i < |rs| && Collect(rs[..i]).Ok? && rs[i].Err?
    ensures Collect(rs) == Err(rs[i].error)
  {
    var longer := rs[..i + 1];
    assert longer[..|longer| - 1] == rs[..i];
    FirstErrorSticks(rs, i + 1);
  }

  lemma SpecsSnoc(specs: seq<FieldSpec>, f: FieldSpec)
    ensures NamesOf(specs + [f]) == NamesOf(specs) + [f.name]
    ensures TypesOf(specs + [f]) == TypesOf(specs) + [f.fieldType]
    ensures PrimaryKeyOf(specs + [f]) == if f.isKey then f.name else PrimaryKeyOf(specs)
  {
    assert (specs + [f])[..|specs|] == specs;
  }

  /** The columns of a list of fields: their names, their types and the primary key. */
  function Columns(specs: seq<FieldSpec>): (seq<string>, seq<Type>, string) {
    (NamesOf(specs), TypesOf(specs), PrimaryKeyOf(specs))
  }

  /** loadSchema on one line: the text around the parentheses, then the loop over the fields. */
  method ParseSchemaLine(line: string) returns (r: Result<SchemaLine, ParseError>)
    ensures r == SchemaOf(line)
  {
    var texts := FieldTexts(line);
    if texts.None? {
      return Err(InvalidEntry);
    }
    var (name, els) := texts.value;
    var columns := ReadFields(els);
    match columns {
      case Err(e) =>
        r := Err(e);
      case Ok((names, types, primaryKey)) =>
        var specs := ParseFields(els).value;
        assert SchemaOf(line) == Ok(SchemaLine(name, NamesOf(specs), TypesOf(specs), PrimaryKeyOf(specs)));
        r := Ok(SchemaLine(name, names, types, primaryKey));
    }
  }

  /** The loop over the fields: names and types collected in order, the last pk field remembered. */
  method ReadFields(els: seq<string>) returns (r: Result<(seq<string>, seq<Type>, string), ParseError>)
    ensures r.Err? <==> ParseFields(els).Err?
    ensures r.Err? ==> r.error == ParseFields(els).error
    ensures r.Ok? ==> r.value == Columns(ParseFields(els).value)
  {
    var names: seq<string> := [];
    var types: seq<Type> := [];
    var primaryKey := "";
    ghost var rs := FieldResults(els);
    var i := 0;
    assert rs[..i] == [];
    ghost var none: seq<FieldSpec> := [];
    assert NamesOf(none) == [] && TypesOf(none) == [];
    while i < |els|
      invariant i <= |els|
      invariant Collect(rs[..i]).Ok?
      invariant (names, types, primaryKey) == Columns(Collect(rs[..i]).value)
    {
      var f := ParseField(els[i]);
      assert f == rs[i];
      if f.Err? {
        FailingFieldEndsCollect(rs, i);
        return Err(f.error);
      }
      ghost var specs := Collect(rs[..i]).value;
      CollectStep(rs, i);
      SpecsSnoc(specs, f.value);
      names := names + [f.value.name];
      types := types + [f.value.fieldType];
      if f.value.isKey {
        primaryKey := f.value.name;
      }
      i := i + 1;
    }
    assert rs[..i] == rs;
    r := Ok((names, types, primaryKey));
  }

  // ---------------------------------------------------------------------------
  // Properties of the parser

  /**
   * A parsed line has one type per column name, a primary key that is empty
   * or one of the column names, no blanks around the table name, and column
   * names without spaces.
   */
  lemma ParsedLineIsConsistent(line: string)
    requires SchemaOf(line).Ok?
    ensures var s := SchemaOf(line).value;
            && |s.fieldNames| == |s.types|
            && (s.primaryKey == "" || s.primaryKey in s.fieldNames)
            && (s.name != [] ==> !IsBlank(s.name[0]) && !IsBlank(s.name[|s.name| - 1]))
            && (forall k :: 0 <= k < |s.fieldNames| ==> ' ' !in s.fieldNames[k])
  {
    var (name, els) := FieldTexts(line).value;
    var specs := ParseFields(els).value;
    assert SchemaOf(line).value == SchemaLine(name, NamesOf(specs), TypesOf(specs), PrimaryKeyOf(specs));
    TableNameTrimmed(line);
    KeyIsAColumn(specs);
    FieldNamesHaveNoSpace(FieldResults(els));
  }

  lemma TableNameTrimmed(line: string)
    requires FieldTexts(line).Some?
    ensures var name := FieldTexts(line).value.0;
            name != [] ==> !IsBlank(name[0]) && !IsBlank(name[|name| - 1])
  {
    TrimKeepsTheMiddle(line[..IndexOf(line, '(')]);
  }

  lemma KeyIsAColumn(specs: seq<FieldSpec>)
    ensures |NamesOf(specs)| == |TypesOf(specs)|
    ensures PrimaryKeyOf(specs) == "" || PrimaryKeyOf(specs) in NamesOf(specs)
  {
    var pk := PrimaryKeyOf(specs);
    if pk != "" {
      var k :| 0 <= k < |specs| && specs[k].isKey && specs[k].name == pk;
      assert NamesOf(specs)[k] == pk;
    }
  }

  lemma {:induction false} FieldNamesHaveNoSpace(rs: seq<Result<FieldSpec, ParseError>>)
    requires Collect(rs).Ok?
    requires forall k :: 0 <= k < |rs| && rs[k].Ok? ==> ' ' !in rs[k].value.name
    ensures forall k :: 0 <= k < |rs| ==> ' ' !in Collect(rs).value[k].name
  {
    if rs != [] {
      FieldNamesHaveNoSpace(rs[..|rs| - 1]);
    }
  }

  /** A line without "(" is rejected as an invalid entry. */
  lemma NoParenthesisIsInvalid(line: string)
    requires '(' !in line
    ensures SchemaOf(line) == Err(InvalidEntry)
  {
  }

  /** A type keyword matches whatever its letter case. */
  lemma TypeKeywordsIgnoreCase()
    ensures TypeOf("INT") == Some(IntType) && TypeOf("Int") == Some(IntType)
    ensures TypeOf("STRING") == Some(StringType) && TypeOf("String") == Some(StringType)
    ensures TypeOf("integer") == None && TypeOf("str") == None
  {
    assert !SameIgnoringCase("str"[0], "int"[0]);
  }

  /**
   * A field `name type note` with a known type: the field is the primary key
   * when the note is exactly pk (in lower case), and any other note is an
   * unknown annotation.
   */
  lemma KeyAnnotation(name: string, ty: string, note: string)
    requires name != [] && ty != [] && note != []
    requires forall k :: 0 <= k < |name| ==> !IsBlank(name[k])
    requires forall k :: 0 <= k < |ty| ==> !IsBlank(ty[k])
    requires forall k :: 0 <= k < |note| ==> !IsBlank(note[k])
    requires TypeOf(ty).Some?
    ensures ParseField(name + " " + ty + " " + note)
         == if note == "pk" then Ok(FieldSpec(name, TypeOf(ty).value, true)) else Err(UnknownAnnotation)
  {
    ThreeWords(name, ty, note);
  }

  /** A field of three words separated by single spaces is split into exactly those words. */
  lemma ThreeWords(name: string, ty: string, note: string)
    requires name != [] && ty != [] && note != []
    requires forall k :: 0 <= k < |name| ==> !IsBlank(name[k])
    requires forall k :: 0 <= k < |ty| ==> !IsBlank(ty[k])
    requires forall k :: 0 <= k < |note| ==> !IsBlank(note[k])
    ensures Split(Trim(name + " " + ty + " " + note), ' ') == [name, ty, note]
    ensures Trim(name) == name && Trim(ty) == ty && Trim(note) == note
  {
    var e := name + " " + ty + " " + note;
    NothingToTrim(name);
    NothingToTrim(ty);
    NothingToTrim(note);
    assert Trim(e) == e by {
      assert e[0] == name[0] && e[|e| - 1] == note[|note| - 1];
      NothingToTrim(e);
    }
    assert ' ' !in name && ' ' !in ty && ' ' !in note;
    SpacedWords(name, ty, note);
    assert ' ' in e by {
      assert e[|name|] == ' ';
    }
  }

  /** Three words without spaces, joined by single spaces, cut at the spaces. */
  lemma SpacedWords(a: string, b: string, c: string)
    requires ' ' !in a && ' ' !in b && ' ' !in c
    ensures Pieces(a + " " + b + " " + c, ' ') == [a, b, c]
  {
    assert a + " " + b + " " + c == a + [' '] + (b + [' '] + c);
    PiecesAfter(a, ' ', b + [' '] + c);
    PiecesAfter(b, ' ', c);
  }
}
