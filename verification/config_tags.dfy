/** The string rules of config.go: how a struct field's `config` tag gives
    the configuration key and type name, and how ApplyFlags classifies the
    type name and the `default` tag before it defines a flag. */
module ConfigTags {
  import opened Wrappers

  /** strings.Split with a one-byte separator: the pieces between the
      separators, one more piece than there are separators. */
  function Split(s: string, sep: char): (parts: seq<string>)
    ensures |parts| >= 1
    ensures forall i :: 0 <= i < |parts| ==> sep !in parts[i]
    ensures Join(parts, sep) == s
    decreases |s|
  {
    if |s| == 0 then [""]
    else
      var rest := Split(s[1..], sep);
      if s[0] == sep then
        assert ([""] + rest)[1..] == rest;
        assert s == [s[0]] + s[1..];
        [""] + rest
      else
        var parts := [[s[0]] + rest[0]] + rest[1..];
        assert parts[1..] == rest[1..];
        assert s == [s[0]] + s[1..];
        parts
  }

  /** strings.Join: the pieces with the separator between each two. */
  function Join(parts: seq<string>, sep: char): string
    requires |parts| >= 1
    decreases |parts|
  {
    if |parts| == 1 then parts[0] else parts[0] + [sep] + Join(parts[1..], sep)
  }

  /** The first piece of a join is a prefix of it; after it comes either the
      end or a separator followed by the join of the other pieces. */
  lemma JoinHead(parts: seq<string>, sep: char)
    requires |parts| >= 1
    ensures var s := Join(parts, sep); var n := |parts[0]|;
      && n <= |s| && s[..n] == parts[0]
      && (|parts| == 1 <==> |s| == n)
      && (|parts| > 1 ==> s[n] == sep && s[n + 1..] == Join(parts[1..], sep))
  {
    var s := Join(parts, sep);
    var n := |parts[0]|;
    if |parts| > 1 {
      assert s == parts[0] + ([sep] + Join(parts[1..], sep));
    }
  }

  /** Pieces free of the separator are determined by their join. */
  lemma {:induction false} JoinInjective(ps: seq<string>, qs: seq<string>, sep: char)
    requires |ps| >= 1 && |qs| >= 1
    requires forall i :: 0 <= i < |ps| ==> sep !in ps[i]
    requires forall i :: 0 <= i < |qs| ==> sep !in qs[i]
    requires Join(ps, sep) == Join(qs, sep)
    ensures ps == qs
    decreases |ps|
  {
    var s := Join(ps, sep);
    JoinHead(ps, sep);
    JoinHead(qs, sep);
    var m, n := |ps[0]|, |qs[0]|;
    if m != n {
      assert false;
    } else {
      assert ps[0] == qs[0];
      if |ps| > 1 {
        forall i | 0 <= i < |ps[1..]|
          ensures sep !in ps[1..][i]
        {
          assert ps[1..][i] == ps[i + 1];
        }
        forall i | 0 <= i < |qs[1..]|
          ensures sep !in qs[1..][i]
        {
          assert qs[1..][i] == qs[i + 1];
        }
        JoinInjective(ps[1..], qs[1..], sep);
        assert ps == [ps[0]] + ps[1..] && qs == [qs[0]] + qs[1..];
      }
    }
  }

  /** Splitting a join gives back the pieces. */
  lemma SplitJoin(parts: seq<string>, sep: char)
    requires |parts| >= 1
    requires forall i :: 0 <= i < |parts| ==> sep !in parts[i]
    ensures Split(Join(parts, sep), sep) == parts
  {
    JoinInjective(Split(Join(parts, sep), sep), parts, sep);
  }

  /** The key a field gets below the options' Prefix: the prefix and the
      name joined by a dot, or the name alone when there is no prefix. */
  function Qualify(prefix: string, name: string): (key: string)
    ensures |prefix| > 0 ==> key == prefix + "." + name
    ensures |prefix| == 0 ==> key == name
  {
    if |prefix| > 0 then
      assert [prefix, name][1..] == [name];
      assert Join([name], '.') == name;
      Join([prefix, name], '.')
    else
      name
  }

  /** getFieldNameAndType, from the field's `config` tag (Tag.Get gives ""
      when there is none) and the options' Prefix. Split always yields at
      least one piece, so the source's test for an empty list never fires.
      The name is empty, and so the result ("", ""), exactly when the tag is
      empty or starts with a comma. */
  function FieldNameAndType(prefix: string, tag: string): (r: (string, string))
    ensures r.0 == "" <==> |tag| == 0 || tag[0] == ','
    ensures r.0 == "" ==> r.1 == ""
  {
    var vals := Split(tag, ',');
    JoinHead(vals, ',');
    var name := vals[0];
    if |name| == 0 then ("", "")
    else
      assert tag[0] == name[0];
      var key := Qualify(prefix, name);
      if |vals| > 1 then (key, vals[1]) else (key, "string")
  }

  /** A tag made of comma-free fields gives the first field as the name,
      qualified by the prefix, and the second as the type, "string" when
      there is no second; later fields are ignored. */
  lemma FieldsOfTag(prefix: string, fields: seq<string>)
    requires |fields| >= 1 && |fields[0]| > 0
    requires forall i :: 0 <= i < |fields| ==> ',' !in fields[i]
    ensures FieldNameAndType(prefix, Join(fields, ',')) ==
      (Qualify(prefix, fields[0]), if |fields| > 1 then fields[1] else "string")
  {
    SplitJoin(fields, ',');
  }

  /** ASCII lower case; strings.ToLower on the ASCII range. */
  function LowerChar(c: char): char
  {
    if 'A' <= c <= 'Z' then (c as int + 32) as char else c
  }

  /** strings.ToLower, character by character, on the ASCII range. */
  function Lower(s: string): (r: string)
    ensures |r| == |s|
    ensures forall i :: 0 <= i < |s| ==> r[i] == LowerChar(s[i])
    decreases |s|
  {
    if |s| == 0 then "" else [LowerChar(s[0])] + Lower(s[1..])
  }

  /** Lower case is already lower case. */
  lemma LowerIdempotent(s: string)
    ensures Lower(Lower(s)) == Lower(s)
  {
  }

  /** The default-tag spellings ApplyFlags reads as true and as false. */
  const TrueWords: set<string> := {"t", "true", "y", "yes"}
  const FalseWords: set<string> := {"f", "false", "n", "no", "not", ""}

  /** The default of a boolean flag, compared in lower case; any other
      spelling panics with a message naming the key and the default. */
  function BoolDefault(key: string, defVal: string): (r: Result<bool>)
    ensures r.Ok? <==> Lower(defVal) in TrueWords + FalseWords
    ensures r.Ok? ==> (r.value <==> Lower(defVal) in TrueWords)
    ensures r.Panic? ==> r.message == "Invalid boolean default value '" + key + "' (error: " + defVal + ")"
  {
    var d := Lower(defVal);
    if d == "t" || d == "true" || d == "y" || d == "yes" then Ok(true)
    else if d == "f" || d == "false" || d == "n" || d == "no" || d == "not" || d == "" then Ok(false)
    else Panic("Invalid boolean default value '" + key + "' (error: " + defVal + ")")
  }

  /** No spelling is read both ways. */
  lemma TrueFalseDisjoint()
    ensures TrueWords * FalseWords == {}
  {
  }

  /** Spellings that agree in lower case give the same boolean default. */
  lemma BoolDefaultIgnoresCase(key: string, a: string, b: string)
    requires Lower(a) == Lower(b)
    ensures BoolDefault(key, a).Ok? == BoolDefault(key, b).Ok?
    ensures BoolDefault(key, a).Ok? ==> BoolDefault(key, a).value == BoolDefault(key, b).value
  {
  }

  /** The kinds of flag ApplyFlags defines. */
  datatype FlagKind = BoolFlag | Int64Flag | Float64Flag | DurationFlag | StringFlag | DateTimeFlag

  /** The type names, in lower case, that select each kind. */
  function Names(k: FlagKind): set<string>
  {
    match k
    case BoolFlag => {"bool", "boolean"}
    case Int64Flag => {"int64", "int", "integer"}
    case Float64Flag => {"float64", "float", "double"}
    case DurationFlag => {"duration"}
    case StringFlag => {"str", "string"}
    case DateTimeFlag => {"time", "datetime", "date"}
  }

  /** The type word each kind puts in its usage text. */
  function Label(k: FlagKind): string
  {
    match k
    case BoolFlag => "boolean"
    case Int64Flag => "int64"
    case Float64Flag => "float64"
    case DurationFlag => "duration"
    case StringFlag => "string"
    case DateTimeFlag => "datetime"
  }

  /** The switch on the lower-cased type name; an unknown name panics with
      a message naming the key and the type as written. */
  function KindOf(key: string, flagType: string): (r: Result<FlagKind>)
    ensures r.Ok? ==> Lower(flagType) in Names(r.value)
    ensures r.Panic? ==> forall k :: Lower(flagType) !in Names(k)
    ensures r.Panic? ==> r.message == "Unable to define the type for flag '" + key + "' (type: " + flagType + ")"
  {
    var t := Lower(flagType);
    if t == "bool" || t == "boolean" then Ok(BoolFlag)
    else if t == "int64" || t == "int" || t == "integer" then Ok(Int64Flag)
    else if t == "float64" || t == "float" || t == "double" then Ok(Float64Flag)
    else if t == "duration" then Ok(DurationFlag)
    else if t == "str" || t == "string" then Ok(StringFlag)
    else if t == "time" || t == "datetime" || t == "date" then Ok(DateTimeFlag)
    else Panic("Unable to define the type for flag '" + key + "' (type: " + flagType + ")")
  }

  /** The groups of names do not overlap, so the classification is
      unambiguous. */
  lemma NamesDisjoint(a: FlagKind, b: FlagKind)
    requires a != b
    ensures Names(a) * Names(b) == {}
  {
  }

  /** Every name of a kind, in any letter case, selects that kind. */
  lemma KindOfNames(key: string, flagType: string, k: FlagKind)
    requires Lower(flagType) in Names(k)
    ensures KindOf(key, flagType) == Ok(k)
  {
    var r := KindOf(key, flagType);
    if r.Ok? && r.value != k {
      NamesDisjoint(k, r.value);
    }
  }

  /** A kind's usage word is one of its own names. */
  lemma LabelSelectsKind(key: string, k: FlagKind)
    ensures KindOf(key, Label(k)) == Ok(k)
  {
    LowerOfLower(Label(k));
    assert Label(k) in Names(k);
    KindOfNames(key, Label(k), k);
  }

  /** A string with no upper-case ASCII letter is its own lower case. */
  lemma LowerOfLower(s: string)
    requires forall i :: 0 <= i < |s| ==> !('A' <= s[i] <= 'Z')
    ensures Lower(s) == s
  {
  }

  /** How a flag's default is obtained: read as a boolean, the kind's zero
      for an empty default tag, parsed from the tag by the standard library,
      or the tag's text itself. */
  datatype FlagDefault = BoolValue(b: bool) | ZeroValue | Parsed(text: string) | Text(text: string)

  /** The flag ApplyFlags defines: its name, kind, default and usage word (`word`). */
  datatype Flag = Flag(name: string, kind: FlagKind, initial: FlagDefault, word: string)

  /** The switch of ApplyFlags for one field with a Config type: `name` is
      the kebab-case key, `flagType` the type from the tag, `defVal` the
      `default` tag. */
  function DefineFlag(name: string, flagType: string, defVal: string): (r: Result<Flag>)
    ensures r.Ok? <==>
      && KindOf(name, flagType).Ok?
      && (KindOf(name, flagType).value == BoolFlag ==> BoolDefault(name, defVal).Ok?)
    ensures r.Ok? ==>
      && r.value.name == name
      && r.value.kind == KindOf(name, flagType).value
      && Lower(flagType) in Names(r.value.kind)
      && r.value.word == Label(r.value.kind)
      && KindOf(name, r.value.word) == Ok(r.value.kind)
    ensures r.Ok? && r.value.kind in {Int64Flag, Float64Flag, DurationFlag} ==>
      if defVal == "" then r.value.initial == ZeroValue else r.value.initial == Parsed(defVal)
    ensures r.Ok? && r.value.kind in {StringFlag, DateTimeFlag} ==> r.value.initial == Text(defVal)
    ensures r.Ok? && r.value.kind == BoolFlag ==>
      r.value.initial == BoolValue(Lower(defVal) in TrueWords)
  {
    match KindOf(name, flagType)
    case Panic(m) => Panic(m)
    case Ok(kind) =>
      LabelSelectsKind(name, kind);
      if kind == BoolFlag then
        match BoolDefault(name, defVal)
        case Panic(m) => Panic(m)
        case Ok(b) => Ok(Flag(name, kind, BoolValue(b), Label(kind)))
      else if kind.Int64Flag? || kind.Float64Flag? || kind.DurationFlag? then
        Ok(Flag(name, kind, if |defVal| > 0 then Parsed(defVal) else ZeroValue, Label(kind)))
      else
        Ok(Flag(name, kind, Text(defVal), Label(kind)))
  }

  /** A field whose tag names no type defines a string flag whose default
      is the `default` tag's text. */
  lemma UntypedFieldIsString(prefix: string, tagName: string, name: string, defVal: string)
    requires |tagName| > 0 && ',' !in tagName
    ensures FieldNameAndType(prefix, tagName).1 == "string"
    ensures DefineFlag(name, FieldNameAndType(prefix, tagName).1, defVal) ==
      Ok(Flag(name, StringFlag, Text(defVal), "string"))
  {
    assert Join([tagName], ',') == tagName;
    FieldsOfTag(prefix, [tagName]);
    LabelSelectsKind(name, StringFlag);
  }

  /** A type name outside every group panics. */
  lemma KindOfUnknown(key: string, flagType: string)
    requires forall k :: Lower(flagType) !in Names(k)
    ensures KindOf(key, flagType).Panic?
  {
  }

  /** Tags as fields of an options struct would carry them. */
  lemma TagWithType()
    ensures FieldNameAndType("", "port,int") == ("port", "int")
  {
    assert Join(["port", "int"], ',') == "port,int";
    FieldsOfTag("", ["port", "int"]);
  }

  lemma TagUnderPrefix()
    ensures FieldNameAndType("db", "host") == ("db.host", "string")
  {
    assert Join(["host"], ',') == "host";
    FieldsOfTag("db", ["host"]);
    assert "db" + "." + "host" == "db.host";
  }

  lemma TagExtraFieldIgnored()
    ensures FieldNameAndType("", "level,bool,ignored") == ("level", "bool")
  {
    assert Join(["level", "bool", "ignored"], ',') == "level,bool,ignored";
    FieldsOfTag("", ["level", "bool", "ignored"]);
  }

  lemma TagWithoutName()
    ensures FieldNameAndType("db", ",int") == ("", "")
    ensures FieldNameAndType("db", "") == ("", "")
  {
  }

  /** Boolean defaults in mixed case, and one that panics. */
  lemma BoolDefaultExamples()
    ensures BoolDefault("verbose", "YES") == Ok(true)
    ensures BoolDefault("verbose", "No") == Ok(false)
    ensures BoolDefault("verbose", "") == Ok(false)
    ensures BoolDefault("verbose", "maybe").Panic?
  {
  }

  /** Type names in mixed case, one that panics, and a flag definition. */
  lemma KindExamples()
    ensures KindOf("port", "Integer") == Ok(Int64Flag)
    ensures KindOf("port", "uint").Panic?
  {
    assert Lower("Integer") == "integer";
    LowerOfLower("uint");
    KindOfUnknown("port", "uint");
  }

  lemma DefineFlagExample()
    ensures DefineFlag("timeout", "duration", "") == Ok(Flag("timeout", DurationFlag, ZeroValue, "duration"))
  {
    LabelSelectsKind("timeout", DurationFlag);
  }
}
