/**
 * Process-wide settings: a table of keys with typed defaults, each overridden
 * by the environment variable of the same name when that is set and non-empty.
 */
module Settings {
  import opened Wrappers
  import opened Strings

  /** The declared type of a setting, which decides how its variable is read. */
  datatype SettingType = StrType | BoolType | ListType | IntType

  datatype SettingValue =
    | StrValue(s: string)
    | BoolValue(b: bool)
    | ListValue(items: seq<string>)
    | IntValue(i: int)

  predicate HasType(v: SettingValue, t: SettingType)
  {
    match t
    case StrType => v.StrValue?
    case BoolType => v.BoolValue?
    case ListType => v.ListValue?
    case IntType => v.IntValue?
  }

  /** One row of the settings table: environment key, default, declared type. */
  datatype Entry = Entry(key: string, default: SettingValue, kind: SettingType)

  const ImageContentTypes: seq<string> := ["image/jpeg", "image/png", "image/gif", "image/svg+xml"]

  /** The prefix every table key starts with. */
  const KeyPrefix := "LK"

  /** The table key of an attribute: `Key("NAME")` is `LK_NAME`. */
  function Key(name: string): string
  {
    KeyPrefix + "_" + name
  }

  /** The settings table, in declaration order. */
  const Table: seq<Entry> := [
    Entry(Key("NAME"), StrValue("LokingAI"), StrType),
    Entry(Key("DEBUG"), BoolValue(false), BoolType),
    Entry(Key("LOG_LEVEL"), StrValue("INFO"), StrType),
    Entry(Key("IMAGE_CTYPES"), ListValue(ImageContentTypes), ListType),
    Entry(Key("IMAGE_MAXSIZE"), IntValue(5), IntType),
    Entry(Key("DOCUMENT_CONTENT_TYPES"), ListValue(ImageContentTypes + ["application/pdf"]), ListType),
    Entry(Key("DOCUMENT_MAXSIZE"), IntValue(5), IntType)
  ]

  /**
   * The attribute a key is stored under: everything after its first `_`.
   * A key without `_` makes the source's unpacking raise, so it is excluded.
   */
  function AttrName(key: string): (r: string)
    requires '_' in key
    ensures |r| < |key|
  {
    if key[0] == '_' then key[1..]
    else
      assert '_' in key[1..] by {
        var i :| 0 <= i < |key| && key[i] == '_';
        assert key[1..][i - 1] == '_';
      }
      AttrName(key[1..])
  }

  /** The attribute name is what follows the first `_` of the key. */
  lemma {:induction false} AttrNameSplitsKey(key: string)
    requires '_' in key
    ensures var name := AttrName(key);
      && |name| < |key|
      && key == key[..|key| - |name| - 1] + "_" + name
      && '_' !in key[..|key| - |name| - 1]
  {
    if key[0] != '_' {
      assert '_' in key[1..] by {
        var i :| 0 <= i < |key| && key[i] == '_';
        assert key[1..][i - 1] == '_';
      }
      AttrNameSplitsKey(key[1..]);
      var name := AttrName(key[1..]);
      assert key[1..] == key[1..][..|key| - |name| - 2] + "_" + name;
      assert key[..|key| - |name| - 1] == [key[0]] + key[1..][..|key| - |name| - 2];
    }
  }

  /** A prefix free of `_` is stripped together with its `_`; later underscores stay. */
  lemma {:induction false} AttrNameAfterPrefix(prefix: string, name: string)
    requires '_' !in prefix
    ensures AttrName(prefix + "_" + name) == name
  {
    if prefix != [] {
      var key := prefix + "_" + name;
      assert key[1..] == prefix[1..] + "_" + name;
      AttrNameAfterPrefix(prefix[1..], name);
    }
  }

  /**
   * The value of one setting, given the environment variable if present:
   * absent or empty keeps the default, otherwise the declared type decides.
   */
  function Coerce(env: Option<string>, default: SettingValue, kind: SettingType): (v: SettingValue)
    ensures env.None? || env == Some("") ==> v == default
    ensures HasType(default, kind) ==> HasType(v, kind)
    ensures kind == IntType && v != default ==> env.Some? && v.IntValue? && ParseInt(env.value) == Some(v.i)
  {
    if env.None? || env.value == "" then default
    else
      match kind
      case BoolType => BoolValue(Lower(env.value) == "true")
      case ListType => ListValue(Split(env.value, ','))
      case IntType => (match ParseInt(env.value) case Some(n) => IntValue(n) case None => default)
      case StrType => StrValue(env.value)
  }

  /** A boolean setting is true exactly when its value is "true" in any letter case. */
  lemma CoerceBool(v: string, default: SettingValue)
    requires v != ""
    ensures Coerce(Some(v), default, BoolType) == BoolValue(IsTrueInAnyCase(v))
  {
    LowerIsTrue(v);
  }

  /** A list setting is the comma split of its value: non-empty, comma-free pieces that join back. */
  lemma CoerceList(v: string, default: SettingValue)
    requires v != ""
    ensures var r := Coerce(Some(v), default, ListType);
      && r.ListValue?
      && |r.items| == Count(v, ',') + 1
      && (forall i :: 0 <= i < |r.items| ==> ',' !in r.items[i])
      && Join(r.items, ',') == v
  {
  }

  /** An integer setting whose value parses takes the parsed integer. */
  lemma CoerceIntParsable(v: string, default: SettingValue)
    requires IsDecimalLiteral(v)
    ensures ParseInt(v).Some? && Coerce(Some(v), default, IntType) == IntValue(ParseInt(v).value)
  {
  }

  /** An integer setting spelled canonically takes that integer, unless it has too many digits. */
  lemma CoerceIntCanonical(n: int, default: SettingValue)
    ensures Coerce(Some(IntToString(n)), default, IntType)
         == if DecimalDigits(n) <= MaxStrDigits then IntValue(n) else default
  {
    ParseIntToString(n);
  }

  /** An integer setting whose value does not parse silently keeps its default. */
  lemma CoerceIntUnparsable(v: string, default: SettingValue)
    requires !IsDecimalLiteral(v)
    ensures Coerce(Some(v), default, IntType) == default
  {
  }

  /** A string setting with a non-empty value takes it verbatim. */
  lemma CoerceStr(v: string, default: SettingValue)
    requires v != ""
    ensures Coerce(Some(v), default, StrType) == StrValue(v)
  {
  }

  function Lookup(env: map<string, string>, key: string): Option<string>
  {
    if key in env then Some(env[key]) else None
  }

  /** The value one table entry resolves to in an environment. */
  function Resolve(env: map<string, string>, e: Entry): SettingValue
  {
    Coerce(Lookup(env, e.key), e.default, e.kind)
  }

  ghost predicate KeysHavePrefix(entries: seq<Entry>)
  {
    forall i :: 0 <= i < |entries| ==> '_' in entries[i].key
  }

  ghost function AttrNames(entries: seq<Entry>): set<string>
    requires KeysHavePrefix(entries)
  {
    set i | 0 <= i < |entries| :: AttrName(entries[i].key)
  }

  ghost predicate DistinctAttrNames(entries: seq<Entry>)
    requires KeysHavePrefix(entries)
  {
    forall i, j :: 0 <= i < j < |entries| ==> AttrName(entries[i].key) != AttrName(entries[j].key)
  }

  /** The attributes after processing `entries` in order, each stored under its stripped key. */
  ghost function ResolveAll(env: map<string, string>, entries: seq<Entry>): map<string, SettingValue>
    requires KeysHavePrefix(entries)
  {
    if entries == [] then map[]
    else
      var last := entries[|entries| - 1];
      ResolveAll(env, entries[..|entries| - 1])[AttrName(last.key) := Resolve(env, last)]
  }

  /** Dropping the last entry keeps the others' prefixes and distinctness. */
  lemma DropLastEntry(entries: seq<Entry>)
    requires entries != [] && KeysHavePrefix(entries)
    ensures var init := entries[..|entries| - 1];
      && KeysHavePrefix(init)
      && (DistinctAttrNames(entries) ==> DistinctAttrNames(init))
      && AttrNames(entries) == AttrNames(init) + {AttrName(entries[|entries| - 1].key)}
  {
    var init := entries[..|entries| - 1];
    var last := AttrName(entries[|entries| - 1].key);
    assert forall i :: 0 <= i < |init| ==> init[i] == entries[i];
    forall x | x in AttrNames(entries) ensures x in AttrNames(init) + {last} {
      var i :| 0 <= i < |entries| && x == AttrName(entries[i].key);
      if i < |entries| - 1 {
        assert init[i] == entries[i];
      }
    }
  }

  /** Every entry yields an attribute and nothing else is set. */
  lemma {:induction false} ResolveAllKeys(env: map<string, string>, entries: seq<Entry>)
    requires KeysHavePrefix(entries)
    ensures ResolveAll(env, entries).Keys == AttrNames(entries)
  {
    if entries != [] {
      DropLastEntry(entries);
      ResolveAllKeys(env, entries[..|entries| - 1]);
    }
  }

  /** Processing one more entry stores its resolved value under its attribute name. */
  lemma ResolveAllSnoc(env: map<string, string>, entries: seq<Entry>, i: nat)
    requires KeysHavePrefix(entries) && i < |entries|
    ensures KeysHavePrefix(entries[..i]) && KeysHavePrefix(entries[..i + 1])
    ensures ResolveAll(env, entries[..i + 1])
      == ResolveAll(env, entries[..i])[AttrName(entries[i].key) := Resolve(env, entries[i])]
  {
    assert entries[..i + 1][..i] == entries[..i];
    assert forall j :: 0 <= j < i + 1 ==> entries[..i + 1][j] == entries[j];
  }

  /** Distinct attribute names give exactly one attribute per entry. */
  lemma {:induction false} DistinctAttrNamesCount(entries: seq<Entry>)
    requires KeysHavePrefix(entries) && DistinctAttrNames(entries)
    ensures |AttrNames(entries)| == |entries|
  {
    if entries != [] {
      var init := entries[..|entries| - 1];
      var last := AttrName(entries[|entries| - 1].key);
      DropLastEntry(entries);
      DistinctAttrNamesCount(init);
      forall i | 0 <= i < |init| ensures AttrName(init[i].key) != last {
        assert init[i] == entries[i];
      }
      assert last !in AttrNames(init);
    }
  }

  /** With distinct attribute names, each entry's attribute holds that entry's resolved value. */
  lemma {:induction false} ResolveAllValue(env: map<string, string>, entries: seq<Entry>, i: nat)
    requires KeysHavePrefix(entries) && DistinctAttrNames(entries)
    requires i < |entries|
    ensures AttrName(entries[i].key) in ResolveAll(env, entries)
    ensures ResolveAll(env, entries)[AttrName(entries[i].key)] == Resolve(env, entries[i])
  {
    if i < |entries| - 1 {
      var init := entries[..|entries| - 1];
      assert init[i] == entries[i];
      ResolveAllValue(env, init, i);
    }
  }

  /** The attribute names of the table, in order. */
  const TableAttrNames: seq<string> := [
    "NAME", "DEBUG", "LOG_LEVEL", "IMAGE_CTYPES", "IMAGE_MAXSIZE",
    "DOCUMENT_CONTENT_TYPES", "DOCUMENT_MAXSIZE"
  ]

  lemma TableKeysHavePrefix()
    ensures KeysHavePrefix(Table)
  {
    forall i | 0 <= i < |Table| ensures '_' in Table[i].key {
      assert Table[i].key[2] == '_';
    }
  }

  /** Each table key is `LK_` followed by its attribute name. */
  lemma TableAttrName(i: nat)
    requires i < |Table|
    ensures '_' in Table[i].key
    ensures AttrName(Table[i].key) == TableAttrNames[i]
  {
    assert Table[i].key == Key(TableAttrNames[i]);
    assert Table[i].key[2] == '_';
    AttrNameAfterPrefix(KeyPrefix, TableAttrNames[i]);
  }

  /** The seven attribute names differ, already in length. */
  lemma TableAttrNamesDistinct()
    ensures forall i, j :: 0 <= i < j < |TableAttrNames| ==> TableAttrNames[i] != TableAttrNames[j]
  {
    var lengths := [4, 5, 9, 12, 13, 22, 16];
    assert forall i :: 0 <= i < |TableAttrNames| ==> |TableAttrNames[i]| == lengths[i];
    forall i, j | 0 <= i < j < |TableAttrNames| ensures |TableAttrNames[i]| != |TableAttrNames[j]| {
      assert lengths[i] != lengths[j];
    }
  }

  /** The table: keys have a prefix, attribute names are distinct, defaults have their declared types. */
  lemma TableWellFormed()
    ensures KeysHavePrefix(Table)
    ensures forall i :: 0 <= i < |Table| ==> HasType(Table[i].default, Table[i].kind)
    ensures forall i :: 0 <= i < |Table| ==> AttrName(Table[i].key) == TableAttrNames[i]
    ensures DistinctAttrNames(Table)
  {
    TableKeysHavePrefix();
    forall i | 0 <= i < |Table| ensures AttrName(Table[i].key) == TableAttrNames[i] {
      TableAttrName(i);
    }
    TableAttrNamesDistinct();
  }

  /** A key absent from the environment, or set to the empty string, keeps its table default. */
  lemma UnsetKeepsDefault(env: map<string, string>, i: nat)
    requires i < |Table|
    requires Table[i].key !in env || env[Table[i].key] == ""
    ensures KeysHavePrefix(Table)
    ensures TableAttrNames[i] in ResolveAll(env, Table)
    ensures ResolveAll(env, Table)[TableAttrNames[i]] == Table[i].default
  {
    TableWellFormed();
    ResolveAllValue(env, Table, i);
  }

  /** The default document types are the image types followed by PDF; both ceilings are 5 MB. */
  lemma TableDefaults()
    ensures Table[3].default == ListValue(ImageContentTypes)
    ensures Table[5].default == ListValue(ImageContentTypes + ["application/pdf"])
    ensures Table[4].default == IntValue(5) && Table[6].default == IntValue(5)
    ensures Table[1].default == BoolValue(false)
  {
  }

  /** Everything the constructor promises about the resolved table. */
  lemma ResolvedTable(env: map<string, string>)
    ensures KeysHavePrefix(Table)
    ensures ResolveAll(env, Table).Keys == AttrNames(Table)
    ensures |ResolveAll(env, Table)| == |Table|
    ensures forall i :: 0 <= i < |Table| ==>
      ResolveAll(env, Table)[AttrName(Table[i].key)] == Resolve(env, Table[i])
    ensures forall i :: 0 <= i < |Table| ==>
      HasType(ResolveAll(env, Table)[AttrName(Table[i].key)], Table[i].kind)
  {
    TableWellFormed();
    ResolveAllKeys(env, Table);
    DistinctAttrNamesCount(Table);
    forall i | 0 <= i < |Table|
      ensures ResolveAll(env, Table)[AttrName(Table[i].key)] == Resolve(env, Table[i])
    {
      ResolveAllValue(env, Table, i);
    }
  }

  /** `AppSettings`: one attribute per table entry, set by a loop over the table. */
  class AppSettings {
    var attrs: map<string, SettingValue>

    ghost predicate Valid()
      reads this
    {
      && KeysHavePrefix(Table)
      && attrs.Keys == AttrNames(Table)
      && forall i :: 0 <= i < |Table| ==> HasType(attrs[AttrName(Table[i].key)], Table[i].kind)
    }

    constructor (env: map<string, string>)
      ensures KeysHavePrefix(Table)
      ensures attrs == ResolveAll(env, Table)
      ensures attrs.Keys == AttrNames(Table) && |attrs| == |Table|
      ensures forall i :: 0 <= i < |Table| ==> attrs[AttrName(Table[i].key)] == Resolve(env, Table[i])
      ensures Valid()
    {
      TableKeysHavePrefix();
      attrs := map[];
      new;
      var i := 0;
      while i < |Table|
        invariant 0 <= i <= |Table|
        invariant KeysHavePrefix(Table[..i])
        invariant attrs == ResolveAll(env, Table[..i])
      {
        var e := Table[i];
        var valEnv := Lookup(env, e.key);
        ResolveAllSnoc(env, Table, i);
        attrs := attrs[AttrName(e.key) := Coerce(valEnv, e.default, e.kind)];
        i := i + 1;
      }
      assert Table[..i] == Table;
      ResolvedTable(env);
    }

    /** `settings.DOCUMENT_CONTENT_TYPES`. */
    function DocumentContentTypes(): seq<string>
      reads this
      requires Valid()
    {
      TableWellFormed();
      assert HasType(attrs[AttrName(Table[5].key)], Table[5].kind);
      attrs["DOCUMENT_CONTENT_TYPES"].items
    }

    /** `settings.DOCUMENT_MAXSIZE`, in MB. */
    function DocumentMaxSize(): int
      reads this
      requires Valid()
    {
      TableWellFormed();
      assert HasType(attrs[AttrName(Table[6].key)], Table[6].kind);
      attrs["DOCUMENT_MAXSIZE"].i
    }
  }
}
