/** Dotted-path configuration overrides, set in place in a tree of fields with aliased names. */
module Config {
  import opened Words
  import opened Text

  // ----- the shape of the configuration -----

  datatype Kind = Duration | String | Bool | Int64 | Int | Strings | Other

  datatype Type = Leaf(kind: Kind) | Struct(fields: seq<Field>) | Pointer(target: Type)

  /** A struct field with its `mapstructure` tag, "" when it has none. */
  datatype Field = Field(name: string, tag: string, ty: Type)

  datatype Value = Number(n: int) | Characters(s: string) | Truth(b: bool) | List(l: seq<string>)

  /** A leaf's position: field indices from the root. */
  type Path = seq<nat>

  /** Looking up a path: a leaf that can be set, one of the two errors, or a panic of the reflection library. */
  datatype Lookup = At(path: Path, kind: Kind) | NotFound | Unsettable | Panic

  // ----- names -----

  /** A field answers to its tag and, in any letter case, to its name. */
  predicate AnswersTo(f: Field, part: string) {
    (f.tag != "" && f.tag == part) || Lower(f.name) == Lower(part)
  }

  /** `getFieldName` then `FieldByName`: the first field, in order, that answers. */
  function FieldIndex(fields: seq<Field>, part: string): (r: Option<nat>)
    ensures r.Some? ==> r.value < |fields|
  {
    if |fields| == 0 then None
    else if AnswersTo(fields[0], part) then Some(0)
    else
      match FieldIndex(fields[1..], part)
      case None => None
      case Some(i) => Some(i + 1)
  }

  ghost predicate NoneAnswers(fields: seq<Field>, part: string) {
    forall k :: 0 <= k < |fields| ==> !AnswersTo(fields[k], part)
  }

  lemma {:induction false} FieldIndexIsFirst(fields: seq<Field>, part: string)
    ensures match FieldIndex(fields, part)
      case None => NoneAnswers(fields, part)
      case Some(i) => AnswersTo(fields[i], part) && NoneAnswers(fields[..i], part)
  {
    if |fields| > 0 && !AnswersTo(fields[0], part) {
      FieldIndexIsFirst(fields[1..], part);
      match FieldIndex(fields[1..], part) {
        case None => assert fields == [fields[0]] + fields[1..];
        case Some(i) => assert fields[..i + 1] == [fields[0]] + fields[1..][..i];
      }
    }
  }

  /** So a part, be it a tag or a name in any letter case, means field i exactly when i is the first to answer to it. */
  lemma FieldIndexExact(fields: seq<Field>, part: string, i: nat)
    ensures FieldIndex(fields, part) == Some(i)
       <==> i < |fields| && AnswersTo(fields[i], part) && NoneAnswers(fields[..i], part)
  {
    FieldIndexIsFirst(fields, part);
    if FieldIndex(fields, part).Some? && i < |fields| {
      var j := FieldIndex(fields, part).value;
      assert i < j ==> fields[..j][i] == fields[i];
      assert j < i ==> fields[..i][j] == fields[j];
    }
  }

  /** The part is the field's tag, if it has one, or its name in any letter case. */
  ghost predicate Named(f: Field, part: string) {
    (f.tag != "" && part == f.tag) || SameUpToCase(part, f.name)
  }

  ghost predicate FirstNamed(fields: seq<Field>, part: string, i: nat) {
    i < |fields| && Named(fields[i], part) && forall k :: 0 <= k < i ==> !Named(fields[k], part)
  }

  ghost predicate NoneNamed(fields: seq<Field>, part: string) {
    forall k :: 0 <= k < |fields| ==> !Named(fields[k], part)
  }

  lemma AnswersWhenNamed(f: Field, part: string)
    ensures AnswersTo(f, part) <==> Named(f, part)
  {
    hide Lower, SameUpToCase;
    LowerExact(part, f.name);
  }

  /** A field is found by its tag and by its name, and the first of those so named is the one. */
  lemma FieldIndexNamed(fields: seq<Field>, part: string, i: nat)
    ensures FieldIndex(fields, part) == Some(i) <==> FirstNamed(fields, part, i)
    ensures FieldIndex(fields, part) == None <==> NoneNamed(fields, part)
  {
    hide AnswersTo, Named;
    forall f: Field
      ensures AnswersTo(f, part) <==> Named(f, part)
    {
      AnswersWhenNamed(f, part);
    }
    FieldIndexExact(fields, part, i);
    FieldIndexIsFirst(fields, part);
  }

  /** `FieldByName("BaseConfig")` on the root. */
  function BaseConfigIndex(fields: seq<Field>): (r: Option<nat>)
    ensures r.Some? ==> r.value < |fields|
  {
    if |fields| == 0 then None
    else if fields[0].name == "BaseConfig" then Some(0)
    else
      match BaseConfigIndex(fields[1..])
      case None => None
      case Some(i) => Some(i + 1)
  }

  // ----- paths -----

  function Split(s: string, sep: char): (parts: seq<string>)
    ensures |parts| > 0
  {
    if |s| == 0 then [""]
    else
      var rest := Split(s[1..], sep);
      if s[0] == sep then [""] + rest else [[s[0]] + rest[0]] + rest[1..]
  }

  function Join(parts: seq<string>, sep: char): string
    requires |parts| > 0
  {
    if |parts| == 1 then parts[0] else parts[0] + [sep] + Join(parts[1..], sep)
  }

  /** The parts joined again are the string, and none contains the separator. */
  lemma {:induction false} SplitExact(s: string, sep: char)
    ensures Join(Split(s, sep), sep) == s
    ensures forall i :: 0 <= i < |Split(s, sep)| ==> sep !in Split(s, sep)[i]
  {
    if |s| > 0 {
      var rest := Split(s[1..], sep);
      SplitExact(s[1..], sep);
      assert s == [s[0]] + s[1..];
      if s[0] == sep {
        assert ([""] + rest)[1..] == rest;
      } else {
        JoinWithFront(s[0], rest, sep);
      }
    }
  }

  lemma JoinWithFront(c: char, parts: seq<string>, sep: char)
    requires |parts| > 0
    ensures Join([[c] + parts[0]] + parts[1..], sep) == [c] + Join(parts, sep)
  {
    var longer := [[c] + parts[0]] + parts[1..];
    if |parts| > 1 {
      assert longer[1..] == parts[1..];
      assert [c] + (parts[0] + [sep] + Join(parts[1..], sep)) == [c] + parts[0] + [sep] + Join(parts[1..], sep);
    }
  }

  lemma {:induction false} SplitOfOne(part: string, sep: char)
    requires sep !in part
    ensures Split(part, sep) == [part]
  {
    if |part| > 0 {
      SplitOfOne(part[1..], sep);
      assert part == [part[0]] + part[1..];
    }
  }

  lemma {:induction false} SplitFirst(part: string, rest: string, sep: char)
    requires sep !in part
    ensures Split(part + [sep] + rest, sep) == [part] + Split(rest, sep)
    decreases |part|
  {
    var s := part + [sep] + rest;
    if |part| == 0 {
      assert s[1..] == rest;
    } else {
      assert s[1..] == part[1..] + [sep] + rest;
      SplitFirst(part[1..], rest, sep);
      assert part == [part[0]] + part[1..];
    }
  }

  /** Parts without the separator are got back from their join. */
  lemma {:induction false} SplitOfJoin(parts: seq<string>, sep: char)
    requires |parts| > 0 && forall i :: 0 <= i < |parts| ==> sep !in parts[i]
    ensures Split(Join(parts, sep), sep) == parts
    decreases |parts|
  {
    if |parts| == 1 {
      SplitOfOne(parts[0], sep);
      assert parts == [parts[0]];
    } else {
      SplitOfJoin(parts[1..], sep);
      SplitFirst(parts[0], Join(parts[1..], sep), sep);
      assert parts == [parts[0]] + parts[1..];
    }
  }

  /** What setting a field of this type would address. */
  function Target(ty: Type, path: Path): Lookup {
    if ty.Leaf? && ty.kind != Other then At(path, ty.kind) else Unsettable
  }

  /** The type a path goes on from: pointers are followed once. */
  function Inside(ty: Type): Type {
    if ty.Pointer? then ty.target else ty
  }

  /** The walk from a cursor: only structs have fields, asking anything else panics. */
  function LookupFrom(ty: Type, path: Path, parts: seq<string>): Lookup
    requires |parts| > 0
    decreases |parts|
  {
    if !ty.Struct? then Panic
    else
      match FieldIndex(ty.fields, parts[0])
      case None => NotFound
      case Some(i) =>
        if |parts| == 1 then Target(ty.fields[i].ty, path + [i])
        else LookupFrom(Inside(ty.fields[i].ty), path + [i], parts[1..])
  }

  /** A single part is looked for in BaseConfig first. */
  function Resolve(ty: Type, fieldPath: string): Lookup
    requires ty.Struct?
  {
    var parts := Split(fieldPath, '.');
    if |parts| > 1 then LookupFrom(ty, [], parts)
    else
      match BaseConfigIndex(ty.fields)
      case None => LookupFrom(ty, [], parts)
      case Some(b) =>
        if !ty.fields[b].ty.Struct? then Panic
        else
          match FieldIndex(ty.fields[b].ty.fields, parts[0])
          case None => LookupFrom(ty, [], parts)
          case Some(j) => Target(ty.fields[b].ty.fields[j].ty, [b, j])
  }

  // ----- pointers -----

  /** The pointer fields a walk goes through, which are no longer nil after it. */
  function PointersPassed(ty: Type, path: Path, parts: seq<string>): set<Path>
    requires |parts| > 0
    decreases |parts|
  {
    if !ty.Struct? || |parts| == 1 then {}
    else
      match FieldIndex(ty.fields, parts[0])
      case None => {}
      case Some(i) =>
        var here: set<Path> := if ty.fields[i].ty.Pointer? then {path + [i]} else {};
        here + PointersPassed(Inside(ty.fields[i].ty), path + [i], parts[1..])
  }

  /** The pointer fields strictly above a position, which is given by the indices still to go. */
  function PointersAbove(ty: Type, path: Path, rest: seq<nat>): set<Path>
    decreases |rest|
  {
    if !ty.Struct? || |rest| <= 1 || rest[0] >= |ty.fields| then {}
    else
      var i := rest[0];
      var here: set<Path> := if ty.fields[i].ty.Pointer? then {path + [i]} else {};
      here + PointersAbove(Inside(ty.fields[i].ty), path + [i], rest[1..])
  }

  lemma {:induction false} WalkPassesPointersAbove(ty: Type, path: Path, parts: seq<string>)
    requires |parts| > 0 && LookupFrom(ty, path, parts).At?
    ensures var p := LookupFrom(ty, path, parts).path;
      path <= p && PointersPassed(ty, path, parts) == PointersAbove(ty, path, p[|path|..])
      && |p| == |path| + |parts|
    decreases |parts|
  {
    var i, p := FieldIndex(ty.fields, parts[0]).value, LookupFrom(ty, path, parts).path;
    if |parts| > 1 {
      WalkPassesPointersAbove(Inside(ty.fields[i].ty), path + [i], parts[1..]);
      assert p[|path|..] == [i] + p[|path| + 1..];
    }
  }

  /** Whatever leaf a path resolves to, the walk has passed every pointer above that leaf. */
  lemma ResolvedLeafHasItsPointers(ty: Type, fieldPath: string)
    requires ty.Struct? && Resolve(ty, fieldPath).At?
    ensures PointersPassed(ty, [], Split(fieldPath, '.')) == PointersAbove(ty, [], Resolve(ty, fieldPath).path)
  {
    var parts, p := Split(fieldPath, '.'), Resolve(ty, fieldPath).path;
    if LookupFrom(ty, [], parts) == Resolve(ty, fieldPath) {
      WalkPassesPointersAbove(ty, [], parts);
      assert p[0..] == p;
    } else {
      var b := BaseConfigIndex(ty.fields).value;
      assert PointersAbove(ty.fields[b].ty, [b], p[1..]) == {};
    }
  }

  // ----- values -----

  type DurationParser = string -> Option<int>

  function TrimLeft(s: string): string {
    if |s| > 0 && IsSpace(s[0]) then TrimLeft(s[1..]) else s
  }

  function TrimRight(s: string): string {
    if |s| > 0 && IsSpace(s[|s| - 1]) then TrimRight(s[..|s| - 1]) else s
  }

  function TrimSpace(s: string): string {
    TrimRight(TrimLeft(s))
  }

  function ParseBool(s: string): Option<bool> {
    if s in ["1", "t", "T", "true", "TRUE", "True"] then Some(true)
    else if s in ["0", "f", "F", "false", "FALSE", "False"] then Some(false)
    else None
  }

  function ParseInt64(s: string): Option<int> {
    match ParseDecimal(s)
    case Some(n) => if IsInt64(n) then Some(n) else None
    case None => None
  }

  function TrimAll(parts: seq<string>): seq<string> {
    seq(|parts|, i requires 0 <= i < |parts| => TrimSpace(parts[i]))
  }

  function ParseValue(parser: DurationParser, kind: Kind, s: string): Option<Value> {
    match kind
    case Duration => if parser(s).Some? then Some(Number(parser(s).value)) else None
    case String => Some(Characters(s))
    case Bool => if ParseBool(s).Some? then Some(Truth(ParseBool(s).value)) else None
    case Int64 => if ParseInt64(s).Some? then Some(Number(ParseInt64(s).value)) else None
    case Int => if ParseInt64(s).Some? then Some(Number(ParseInt64(s).value)) else None
    case Strings => Some(List(if TrimSpace(s) == "" then [] else TrimAll(Split(s, ','))))
    case Other => None
  }

  // ----- what a string means for a leaf -----

  ghost predicate AllSpace(s: string) {
    forall i :: 0 <= i < |s| ==> IsSpace(s[i])
  }

  /** The core is the string without the white space at both ends. */
  ghost predicate Core(s: string, core: string) {
    && (core == "" || (!IsSpace(core[0]) && !IsSpace(core[|core| - 1])))
    && exists pre: string, post: string :: AllSpace(pre) && AllSpace(post) && s == pre + core + post
  }

  lemma {:induction false} TrimLeftExact(pre: string, t: string)
    requires AllSpace(pre) && (t == "" || !IsSpace(t[0]))
    ensures TrimLeft(pre + t) == t
    decreases |pre|
  {
    if |pre| == 0 {
      assert pre + t == t;
    } else {
      assert (pre + t)[1..] == pre[1..] + t;
      TrimLeftExact(pre[1..], t);
    }
  }

  lemma {:induction false} TrimRightExact(t: string, post: string)
    requires AllSpace(post) && (t == "" || !IsSpace(t[|t| - 1]))
    ensures TrimRight(t + post) == t
    decreases |post|
  {
    if |post| == 0 {
      assert t + post == t;
    } else {
      assert (t + post)[..|t + post| - 1] == t + post[..|post| - 1];
      TrimRightExact(t, post[..|post| - 1]);
    }
  }

  lemma {:induction false} TrimLeftLeaves(s: string) returns (pre: string)
    ensures AllSpace(pre) && s == pre + TrimLeft(s)
    ensures TrimLeft(s) == "" || !IsSpace(TrimLeft(s)[0])
    decreases |s|
  {
    pre := "";
    if |s| > 0 && IsSpace(s[0]) {
      var rest := TrimLeftLeaves(s[1..]);
      pre := [s[0]] + rest;
    }
  }

  lemma {:induction false} TrimRightLeaves(s: string) returns (post: string)
    ensures AllSpace(post) && s == TrimRight(s) + post
    ensures TrimRight(s) == "" || !IsSpace(TrimRight(s)[|TrimRight(s)| - 1])
    decreases |s|
  {
    post := "";
    if |s| > 0 && IsSpace(s[|s| - 1]) {
      var rest := TrimRightLeaves(s[..|s| - 1]);
      post := rest + [s[|s| - 1]];
    }
  }

  /** Trimming gives the core, which is the only one. */
  lemma TrimExact(s: string, core: string)
    ensures TrimSpace(s) == core <==> Core(s, core)
  {
    hide TrimLeft, TrimRight;
    TrimmedIsCore(s);
    if Core(s, core) {
      var pre: string, post: string :| AllSpace(pre) && AllSpace(post) && s == pre + core + post;
      TrimOfCore(pre, core, post);
    }
  }

  lemma TrimmedIsCore(s: string)
    ensures Core(s, TrimSpace(s))
  {
    var pre := TrimLeftLeaves(s);
    var t := TrimLeft(s);
    var post := TrimRightLeaves(t);
    var core := TrimRight(t);
    hide TrimLeft, TrimRight, IsSpace;
    assert core != "" ==> core[0] == t[0];
    assert s == pre + core + post;
  }

  lemma TrimOfCore(pre: string, core: string, post: string)
    requires AllSpace(pre) && AllSpace(post)
    requires core == "" || (!IsSpace(core[0]) && !IsSpace(core[|core| - 1]))
    ensures TrimSpace(pre + core + post) == core
  {
    hide TrimLeft, TrimRight, IsSpace;
    if core == "" {
      assert AllSpace(pre + post);
      TrimLeftExact(pre + post, "");
      assert pre + core + post == pre + post + "";
      TrimRightExact("", "");
      assert "" + "" == "";
    } else {
      assert pre + core + post == pre + (core + post);
      assert (core + post)[0] == core[0];
      TrimLeftExact(pre, core + post);
      TrimRightExact(core, post);
    }
  }

  /** The value is a list of the trimmed items of the comma-separated string. */
  ghost predicate ListsItems(s: string, items: seq<string>) {
    exists parts: seq<string> ::
      && |parts| == |items| > 0 && s == Join(parts, ',')
      && (forall i :: 0 <= i < |parts| ==> ',' !in parts[i])
      && forall i :: 0 <= i < |parts| ==> Core(parts[i], items[i])
  }

  /** What the string means for a leaf of the kind. */
  ghost predicate Means(parser: DurationParser, kind: Kind, s: string, x: Value) {
    match kind
    case Duration => exists n: int :: parser(s) == Some(n) && x == Number(n)
    case String => x == Characters(s)
    case Bool =>
      || (x == Truth(true) && (s == "1" || s == "t" || s == "T" || s == "true" || s == "TRUE" || s == "True"))
      || (x == Truth(false) && (s == "0" || s == "f" || s == "F" || s == "false" || s == "FALSE" || s == "False"))
    case Int64 => exists n: int :: IsInt64(n) && SpellsInt(s, n) && x == Number(n)
    case Int => exists n: int :: IsInt64(n) && SpellsInt(s, n) && x == Number(n)
    case Strings =>
      if AllSpace(s) then x == List([]) else exists items: seq<string> :: ListsItems(s, items) && x == List(items)
    case Other => false
  }

  lemma IntExact(s: string, x: Value)
    ensures (ParseInt64(s).Some? && x == Number(ParseInt64(s).value))
       <==> exists n: int :: IsInt64(n) && SpellsInt(s, n) && x == Number(n)
  {
    hide ParseDecimal, SpellsInt;
    forall n: int
      ensures ParseDecimal(s) == Some(n) <==> SpellsInt(s, n)
    {
      ParseDecimalExact(s, n);
    }
    if ParseInt64(s).Some? {
      assert SpellsInt(s, ParseInt64(s).value);
    }
  }

  lemma BlankExact(s: string)
    ensures TrimSpace(s) == "" <==> AllSpace(s)
  {
    hide TrimSpace;
    TrimExact(s, "");
    if AllSpace(s) {
      assert s == s + "" + "";
      assert AllSpace("");
    }
  }

  lemma ItemsExact(s: string, items: seq<string>)
    ensures items == TrimAll(Split(s, ',')) <==> ListsItems(s, items)
  {
    hide Split, Join, TrimSpace, Core;
    var parts := Split(s, ',');
    SplitExact(s, ',');
    forall part: string, core: string
      ensures TrimSpace(part) == core <==> Core(part, core)
    {
      TrimExact(part, core);
    }
    if items == TrimAll(parts) {
      assert forall i :: 0 <= i < |parts| ==> Core(parts[i], items[i]);
    }
    if ListsItems(s, items) {
      var p: seq<string> :|
        && |p| == |items| > 0 && s == Join(p, ',')
        && (forall i :: 0 <= i < |p| ==> ',' !in p[i])
        && forall i :: 0 <= i < |p| ==> Core(p[i], items[i]);
      SplitOfJoin(p, ',');
      assert p == parts;
    }
  }

  /** A string is parsed to a value exactly when it means it. */
  lemma ValueExact(parser: DurationParser, kind: Kind, s: string, x: Value)
    ensures ParseValue(parser, kind, s) == Some(x) <==> Means(parser, kind, s, x)
  {
    hide ParseInt64, SpellsInt, TrimSpace, Split, TrimAll, ListsItems, AllSpace;
    IntExact(s, x);
    BlankExact(s);
    ItemsExact(s, TrimAll(Split(s, ',')));
    if x.List? {
      ItemsExact(s, x.l);
    }
  }

  // ----- overrides -----

  function FirstEquals(s: string): Option<nat> {
    if |s| == 0 then None
    else if s[0] == '=' then Some(0)
    else
      match FirstEquals(s[1..])
      case None => None
      case Some(i) => Some(i + 1)
  }

  lemma {:induction false} FirstEqualsIs(s: string)
    ensures match FirstEquals(s)
      case None => '=' !in s
      case Some(i) => i < |s| && s[i] == '=' && '=' !in s[..i]
  {
    if |s| > 0 && s[0] != '=' {
      FirstEqualsIs(s[1..]);
      match FirstEquals(s[1..]) {
        case None =>
        case Some(i) => assert s[..i + 1] == [s[0]] + s[1..][..i];
      }
    }
  }

  datatype Outcome = Applied | InvalidFormat | FieldNotFound | InvalidValue | Panicked

  /** What one override does to the leaves: one write, or nothing and an error. */
  datatype Effect = Write(path: Path, value: Value) | Error(outcome: Outcome)

  function FieldEffect(parser: DurationParser, ty: Type, fieldPath: string, value: string): Effect
    requires ty.Struct?
  {
    match Resolve(ty, fieldPath)
    case NotFound => Error(FieldNotFound)
    case Unsettable => Error(InvalidValue)
    case Panic => Error(Panicked)
    case At(path, kind) =>
      match ParseValue(parser, kind, value)
      case None => Error(InvalidValue)
      case Some(v) => Write(path, v)
  }

  /** `parseConfigOverride` splits at the first equals sign. */
  function OverrideEffect(parser: DurationParser, ty: Type, override: string): Effect
    requires ty.Struct?
  {
    FirstEqualsIs(override);
    match FirstEquals(override)
    case None => Error(InvalidFormat)
    case Some(i) => FieldEffect(parser, ty, override[..i], override[i + 1..])
  }

  type Leaves = map<Path, Value>

  function ApplyEffect(leaves: Leaves, e: Effect): Leaves {
    match e
    case Write(path, value) => leaves[path := value]
    case Error(_) => leaves
  }

  /** Override by override, stopping at the first error. */
  function ApplyAll(parser: DurationParser, ty: Type, leaves: Leaves, overrides: seq<string>): (Leaves, Outcome)
    requires ty.Struct?
    decreases |overrides|
  {
    if |overrides| == 0 then (leaves, Applied)
    else
      match OverrideEffect(parser, ty, overrides[0])
      case Error(outcome) => (leaves, outcome)
      case Write(path, value) => ApplyAll(parser, ty, leaves[path := value], overrides[1..])
  }

  ghost predicate AllWrite(parser: DurationParser, ty: Type, overrides: seq<string>)
    requires ty.Struct?
  {
    forall i :: 0 <= i < |overrides| ==> OverrideEffect(parser, ty, overrides[i]).Write?
  }

  ghost predicate WritesTo(parser: DurationParser, ty: Type, override: string, path: Path)
    requires ty.Struct?
  {
    OverrideEffect(parser, ty, override).Write? && OverrideEffect(parser, ty, override).path == path
  }

  /** Override j is the last of them to write the leaf. */
  ghost predicate LastWriter(parser: DurationParser, ty: Type, overrides: seq<string>, j: nat, path: Path)
    requires ty.Struct?
  {
    && j < |overrides| && WritesTo(parser, ty, overrides[j], path)
    && forall k :: j < k < |overrides| ==> !WritesTo(parser, ty, overrides[k], path)
  }

  ghost predicate NeverWritten(parser: DurationParser, ty: Type, overrides: seq<string>, path: Path)
    requires ty.Struct?
  {
    forall k :: 0 <= k < |overrides| ==> !WritesTo(parser, ty, overrides[k], path)
  }

  /** A leaf nothing writes keeps its value. */
  lemma {:induction false} UnwrittenLeafKeeps(
    parser: DurationParser, ty: Type, leaves: Leaves, overrides: seq<string>, path: Path)
    requires ty.Struct? && NeverWritten(parser, ty, overrides, path)
    ensures var after := ApplyAll(parser, ty, leaves, overrides).0;
      (path in after <==> path in leaves) && (path in leaves ==> after[path] == leaves[path])
    decreases |overrides|
  {
    if |overrides| > 0 {
      match OverrideEffect(parser, ty, overrides[0]) {
        case Error(_) =>
        case Write(p, value) =>
          assert !WritesTo(parser, ty, overrides[0], path);
          assert forall k :: 0 <= k < |overrides| - 1 ==> overrides[1..][k] == overrides[k + 1];
          UnwrittenLeafKeeps(parser, ty, leaves[p := value], overrides[1..], path);
      }
    }
  }

  /** The last writer of a leaf wins, whatever name each writer used for it. */
  lemma {:induction false} LastWriterWins(
    parser: DurationParser, ty: Type, leaves: Leaves, overrides: seq<string>, j: nat, path: Path)
    requires ty.Struct? && AllWrite(parser, ty, overrides) && LastWriter(parser, ty, overrides, j, path)
    ensures var after := ApplyAll(parser, ty, leaves, overrides).0;
      path in after && after[path] == OverrideEffect(parser, ty, overrides[j]).value
    decreases |overrides|
  {
    var first := OverrideEffect(parser, ty, overrides[0]);
    assert first.Write?;
    assert forall k :: 0 <= k < |overrides| - 1 ==> overrides[1..][k] == overrides[k + 1];
    if j == 0 {
      UnwrittenLeafKeeps(parser, ty, leaves[first.path := first.value], overrides[1..], path);
    } else {
      LastWriterWins(parser, ty, leaves[first.path := first.value], overrides[1..], j - 1, path);
    }
  }

  /** An error at position k: exactly the k overrides before it took effect. */
  lemma {:induction false} ErrorStopsThere(
    parser: DurationParser, ty: Type, leaves: Leaves, overrides: seq<string>, k: nat)
    requires ty.Struct? && k <= |overrides| && AllWrite(parser, ty, overrides[..k])
    requires k < |overrides| ==> OverrideEffect(parser, ty, overrides[k]).Error?
    ensures ApplyAll(parser, ty, leaves, overrides) ==
      (ApplyAll(parser, ty, leaves, overrides[..k]).0,
       if k < |overrides| then OverrideEffect(parser, ty, overrides[k]).outcome else Applied)
    decreases k
  {
    if k > 0 {
      var first := OverrideEffect(parser, ty, overrides[..k][0]);
      assert first.Write? && overrides[..k][0] == overrides[0];
      assert overrides[1..][..k - 1] == overrides[..k][1..];
      ErrorStopsThere(parser, ty, leaves[first.path := first.value], overrides[1..], k - 1);
    }
  }

  // ----- one override, from its text to the leaf -----

  lemma {:induction false} EqualsAfter(path: string, v: string)
    requires '=' !in path
    ensures FirstEquals(path + "=" + v) == Some(|path|)
    decreases |path|
  {
    var s := path + "=" + v;
    if |path| > 0 {
      assert s[1..] == path[1..] + "=" + v;
      EqualsAfter(path[1..], v);
    }
  }

  lemma OverrideIsFieldEffect(parser: DurationParser, ty: Type, leaves: Leaves, path: string, v: string)
    requires ty.Struct? && '=' !in path
    ensures var e := FieldEffect(parser, ty, path, v);
      ApplyAll(parser, ty, leaves, [path + "=" + v]) ==
        if e.Write? then (leaves[e.path := e.value], Applied) else (leaves, e.outcome)
  {
    hide FieldEffect, FirstEquals;
    var s := path + "=" + v;
    EqualsAfter(path, v);
    assert s[..|path|] == path && s[|path| + 1..] == v;
    var overrides: seq<string> := [s];
    assert |overrides[1..]| == 0;
  }

  /** Where the path leads, the leaf gets what the string means, and an error it is when it means nothing. */
  lemma LeafGetsMeaning(
    parser: DurationParser, ty: Type, leaves: Leaves, path: string, v: string, p: Path, kind: Kind)
    requires ty.Struct? && '=' !in path && Resolve(ty, path) == At(p, kind)
    ensures forall x: Value :: Means(parser, kind, v, x) ==>
      ApplyAll(parser, ty, leaves, [path + "=" + v]) == (leaves[p := x], Applied)
    ensures (forall x: Value :: !Means(parser, kind, v, x)) ==>
      ApplyAll(parser, ty, leaves, [path + "=" + v]) == (leaves, InvalidValue)
  {
    hide Means, ParseValue, Resolve, ApplyAll;
    OverrideIsFieldEffect(parser, ty, leaves, path, v);
    forall x: Value
      ensures ParseValue(parser, kind, v) == Some(x) <==> Means(parser, kind, v, x)
    {
      ValueExact(parser, kind, v, x);
    }
  }

  /** An override without an equals sign changes nothing. */
  lemma NoEqualsNoChange(parser: DurationParser, ty: Type, leaves: Leaves, s: string)
    requires ty.Struct? && '=' !in s
    ensures ApplyAll(parser, ty, leaves, [s]) == (leaves, InvalidFormat)
  {
    FirstEqualsIs(s);
  }

  lemma ResolveTwoParts(ty: Type, first: string, second: string, i: nat, inner: seq<Field>, j: nat)
    requires ty.Struct? && '.' !in first && '.' !in second
    requires FirstNamed(ty.fields, first, i)
    requires ty.fields[i].ty == Struct(inner) || ty.fields[i].ty == Pointer(Struct(inner))
    requires FirstNamed(inner, second, j)
    ensures Resolve(ty, first + "." + second) == Target(inner[j].ty, [i, j])
  {
    hide FirstNamed, FieldIndex, Split;
    SplitFirst(first, second, '.');
    SplitOfOne(second, '.');
    FieldIndexNamed(ty.fields, first, i);
    FieldIndexNamed(inner, second, j);
    assert first + "." + second == first + ['.'] + second;
    var parts := [first, second];
    assert Split(first + "." + second, '.') == parts && parts[1..] == [second];
    assert LookupFrom(Struct(inner), [i], [second]) == Target(inner[j].ty, [i] + [j]);
    var root: Path := [];
    assert root + [i] == [i] && [i] + [j] == [i, j];
  }

  /** "a.b=v" writes what v means to leaf b of field a, by tags or names, through a pointer or not. */
  lemma TwoPartOverride(
    parser: DurationParser, ty: Type, leaves: Leaves, first: string, second: string, v: string,
    i: nat, inner: seq<Field>, j: nat, kind: Kind, x: Value)
    requires ty.Struct? && '.' !in first && '.' !in second && '=' !in first && '=' !in second
    requires FirstNamed(ty.fields, first, i)
    requires ty.fields[i].ty == Struct(inner) || ty.fields[i].ty == Pointer(Struct(inner))
    requires FirstNamed(inner, second, j) && inner[j].ty == Leaf(kind) && Means(parser, kind, v, x)
    ensures ApplyAll(parser, ty, leaves, [first + "." + second + "=" + v]) == (leaves[[i, j] := x], Applied)
  {
    hide FirstNamed, Means, Resolve, ApplyAll;
    ResolveTwoParts(ty, first, second, i, inner, j);
    assert kind != Other by {
      MeansNothingForOther(parser, kind, v, x);
    }
    LeafGetsMeaning(parser, ty, leaves, first + "." + second, v, [i, j], kind);
  }

  /** The ways "a.b=v" fails: no field a, a field without fields, no field b in it, or a field that cannot be set. */
  lemma TwoPartErrors(
    parser: DurationParser, ty: Type, leaves: Leaves, first: string, second: string, v: string, i: nat, j: nat)
    requires ty.Struct? && '.' !in first && '.' !in second && '=' !in first && '=' !in second
    ensures NoneNamed(ty.fields, first) ==>
      ApplyAll(parser, ty, leaves, [first + "." + second + "=" + v]) == (leaves, FieldNotFound)
    ensures FirstNamed(ty.fields, first, i) ==>
      var inner := if ty.fields[i].ty.Pointer? then ty.fields[i].ty.target else ty.fields[i].ty;
      && (!inner.Struct? ==>
           ApplyAll(parser, ty, leaves, [first + "." + second + "=" + v]) == (leaves, Panicked))
      && (inner.Struct? && NoneNamed(inner.fields, second) ==>
           ApplyAll(parser, ty, leaves, [first + "." + second + "=" + v]) == (leaves, FieldNotFound))
      && (inner.Struct? && FirstNamed(inner.fields, second, j)
          && (!inner.fields[j].ty.Leaf? || inner.fields[j].ty.kind == Other) ==>
           ApplyAll(parser, ty, leaves, [first + "." + second + "=" + v]) == (leaves, InvalidValue))
  {
    hide FirstNamed, NoneNamed, FieldIndex, Split, ApplyAll, ParseValue;
    SplitFirst(first, second, '.');
    SplitOfOne(second, '.');
    assert first + "." + second == first + ['.'] + second;
    var parts := [first, second];
    assert Split(first + "." + second, '.') == parts && parts[1..] == [second];
    FieldIndexNamed(ty.fields, first, i);
    OverrideIsFieldEffect(parser, ty, leaves, first + "." + second, v);
    if FirstNamed(ty.fields, first, i) {
      var inner := Inside(ty.fields[i].ty);
      var root: Path := [];
      assert Resolve(ty, first + "." + second) == LookupFrom(inner, root + [i], [second]);
      if inner.Struct? {
        FieldIndexNamed(inner.fields, second, j);
      }
    } else if NoneNamed(ty.fields, first) {
      assert Resolve(ty, first + "." + second) == NotFound;
    }
  }

  lemma MeansNothingForOther(parser: DurationParser, kind: Kind, v: string, x: Value)
    requires Means(parser, kind, v, x)
    ensures kind != Other
  {
  }

  /** The parts lead from a struct down to a leaf, each naming the first field that answers to it. */
  ghost predicate Leads(ty: Type, parts: seq<string>, p: Path, kind: Kind)
    decreases |parts|
  {
    && ty.Struct? && |parts| == |p| > 0 && FirstNamed(ty.fields, parts[0], p[0])
    && var field := ty.fields[p[0]].ty;
       if |parts| == 1 then field == Leaf(kind) && kind != Other
       else Leads(if field.Pointer? then field.target else field, parts[1..], p[1..], kind)
  }

  lemma {:induction false} LeadsThere(ty: Type, path: Path, parts: seq<string>, p: Path, kind: Kind)
    requires Leads(ty, parts, p, kind)
    ensures LookupFrom(ty, path, parts) == At(path + p, kind)
    decreases |parts|
  {
    hide FirstNamed, FieldIndex;
    FieldIndexNamed(ty.fields, parts[0], p[0]);
    assert p == [p[0]] + p[1..];
    if |parts| > 1 {
      assert path + [p[0]] + p[1..] == path + p;
      LeadsThere(Inside(ty.fields[p[0]].ty), path + [p[0]], parts[1..], p[1..], kind);
    }
  }

  lemma {:induction false} FoundByLeading(ty: Type, path: Path, parts: seq<string>) returns (p: Path)
    requires |parts| > 0 && LookupFrom(ty, path, parts).At?
    ensures Leads(ty, parts, p, LookupFrom(ty, path, parts).kind) && LookupFrom(ty, path, parts).path == path + p
    decreases |parts|
  {
    var i := FieldIndex(ty.fields, parts[0]).value;
    hide FirstNamed, FieldIndex;
    FieldIndexNamed(ty.fields, parts[0], i);
    p := [i];
    if |parts| > 1 {
      var rest := FoundByLeading(Inside(ty.fields[i].ty), path + [i], parts[1..]);
      p := [i] + rest;
      assert p[1..] == rest;
      assert path + [i] + rest == path + p;
    }
  }

  /** A path of two or more parts resolves to exactly the leaf its parts lead to. */
  lemma ResolveExact(ty: Type, parts: seq<string>, p: Path, kind: Kind)
    requires ty.Struct? && |parts| > 1 && forall i :: 0 <= i < |parts| ==> '.' !in parts[i]
    ensures Resolve(ty, Join(parts, '.')) == At(p, kind) <==> Leads(ty, parts, p, kind)
  {
    hide Leads, LookupFrom, Split, Join;
    SplitOfJoin(parts, '.');
    var root: Path := [];
    assert root + p == p;
    if Resolve(ty, Join(parts, '.')) == At(p, kind) {
      var q := FoundByLeading(ty, root, parts);
      assert root + q == q;
    }
    if Leads(ty, parts, p, kind) {
      LeadsThere(ty, root, parts, p, kind);
    }
  }

  /** Without a BaseConfig "a=v" is about the top-level leaf named a. */
  lemma OnePartWithoutBase(
    parser: DurationParser, ty: Type, leaves: Leaves, part: string, v: string, i: nat, kind: Kind, x: Value)
    requires ty.Struct? && '.' !in part && '=' !in part && Means(parser, kind, v, x)
    requires forall k :: 0 <= k < |ty.fields| ==> ty.fields[k].name != "BaseConfig"
    requires FirstNamed(ty.fields, part, i) && ty.fields[i].ty == Leaf(kind)
    ensures ApplyAll(parser, ty, leaves, [part + "=" + v]) == (leaves[[i] := x], Applied)
  {
    hide FirstNamed, Means, ApplyAll, FieldIndex, BaseConfigIndex, Split;
    NoBaseConfig(ty.fields);
    SplitOfOne(part, '.');
    FieldIndexNamed(ty.fields, part, i);
    MeansNothingForOther(parser, kind, v, x);
    OverrideIsFieldEffect(parser, ty, leaves, part, v);
    ValueExact(parser, kind, v, x);
    var root: Path := [];
    assert root + [i] == [i];
  }

  lemma {:induction false} NoBaseConfig(fields: seq<Field>)
    requires forall k :: 0 <= k < |fields| ==> fields[k].name != "BaseConfig"
    ensures BaseConfigIndex(fields) == None
  {
    if |fields| > 0 {
      NoBaseConfig(fields[1..]);
    }
  }

  ghost predicate FirstIsBase(fields: seq<Field>, b: nat, base: seq<Field>) {
    && b < |fields| && fields[b].name == "BaseConfig" && fields[b].ty == Struct(base)
    && forall k :: 0 <= k < b ==> fields[k].name != "BaseConfig"
  }

  lemma {:induction false} BaseConfigIs(fields: seq<Field>, b: nat)
    requires b < |fields| && fields[b].name == "BaseConfig"
    requires forall k :: 0 <= k < b ==> fields[k].name != "BaseConfig"
    ensures BaseConfigIndex(fields) == Some(b)
    decreases b, fields
  {
    if b > 0 {
      assert forall k :: 0 <= k < b - 1 ==> fields[1..][k] == fields[k + 1];
      BaseConfigIs(fields[1..], b - 1);
    }
  }

  /** "a=v" is about the leaf of BaseConfig named a, or failing that about the top-level one. */
  lemma OnePartOverride(
    parser: DurationParser, ty: Type, leaves: Leaves, part: string, v: string,
    b: nat, base: seq<Field>, i: nat, kind: Kind, x: Value)
    requires ty.Struct? && '.' !in part && '=' !in part && FirstIsBase(ty.fields, b, base) && Means(parser, kind, v, x)
    ensures FirstNamed(base, part, i) && base[i].ty == Leaf(kind) ==>
      ApplyAll(parser, ty, leaves, [part + "=" + v]) == (leaves[[b, i] := x], Applied)
    ensures NoneNamed(base, part) && FirstNamed(ty.fields, part, i) && ty.fields[i].ty == Leaf(kind) ==>
      ApplyAll(parser, ty, leaves, [part + "=" + v]) == (leaves[[i] := x], Applied)
    ensures NoneNamed(base, part) && NoneNamed(ty.fields, part) ==>
      ApplyAll(parser, ty, leaves, [part + "=" + v]) == (leaves, FieldNotFound)
  {
    hide FirstNamed, NoneNamed, Means, ApplyAll, FieldIndex, BaseConfigIndex, Split;
    BaseConfigIs(ty.fields, b);
    SplitOfOne(part, '.');
    FieldIndexNamed(base, part, i);
    FieldIndexNamed(ty.fields, part, i);
    MeansNothingForOther(parser, kind, v, x);
    OverrideIsFieldEffect(parser, ty, leaves, part, v);
    ValueExact(parser, kind, v, x);
    var root: Path := [];
    assert root + [i] == [i];
  }

  // ----- the configuration object -----

  class ConfigTree {
    const ty: Type
    /** Leaf values by position; a leaf that is absent holds its zero value. */
    var leaves: Leaves
    /** The pointer fields that are not nil. */
    var created: set<Path>

    /** Every leaf that holds a written value can be reached: no pointer above it is nil. */
    ghost predicate NoLeafBehindNil()
      reads this
    {
      forall p :: p in leaves ==> PointersAbove(ty, [], p) <= created
    }

    /** A configuration as it stands before the overrides. */
    constructor (ty: Type, leaves: Leaves, created: set<Path>)
      ensures this.ty == ty && this.leaves == leaves && this.created == created
    {
      this.ty, this.leaves, this.created := ty, leaves, created;
    }

    /** `setFieldValue`. */
    method SetFieldValue(parser: DurationParser, target: Lookup, value: string) returns (outcome: Outcome)
      requires target.At? || target.Unsettable?
      modifies this`leaves
      ensures match target
        case At(path, kind) =>
          (match ParseValue(parser, kind, value)
           case Some(v) => outcome == Applied && leaves == old(leaves)[path := v]
           case None => outcome == InvalidValue && leaves == old(leaves))
        case _ => outcome == InvalidValue && leaves == old(leaves)
      ensures target.At? ==>
        && (forall x: Value :: Means(parser, target.kind, value, x) ==>
             outcome == Applied && leaves == old(leaves)[target.path := x])
        && ((forall x: Value :: !Means(parser, target.kind, value, x)) ==>
             outcome == InvalidValue && leaves == old(leaves))
    {
      if target.At? {
        forall x: Value
          ensures ParseValue(parser, target.kind, value) == Some(x) <==> Means(parser, target.kind, value, x)
        {
          ValueExact(parser, target.kind, value, x);
        }
      }
      hide Means, ParseValue;
      if target.Unsettable? {
        return InvalidValue;
      }
      var v := ParseValue(parser, target.kind, value);
      if v == None {
        return InvalidValue;
      }
      leaves := leaves[target.path := v.value];
      outcome := Applied;
    }

    /** `updateConfigField`: BaseConfig for a single part, else a cursor walking down, creating nil pointers. */
    method UpdateConfigField(parser: DurationParser, fieldPath: string, value: string) returns (outcome: Outcome)
      requires ty.Struct?
      modifies this
      ensures leaves == ApplyEffect(old(leaves), FieldEffect(parser, ty, fieldPath, value))
      ensures match FieldEffect(parser, ty, fieldPath, value)
        case Write(_, _) => outcome == Applied
        case Error(o) => outcome == o
      ensures created == old(created) + PointersPassed(ty, [], Split(fieldPath, '.'))
      ensures old(NoLeafBehindNil()) ==> NoLeafBehindNil()
    {
      hide FieldIndex, ParseValue, PointersAbove, BaseConfigIndex, Split;
      var parts := Split(fieldPath, '.');
      if Resolve(ty, fieldPath).At? {
        ResolvedLeafHasItsPointers(ty, fieldPath);
      }
      if |parts| == 1 {
        var base := BaseConfigIndex(ty.fields);
        if base != None {
          var baseType := ty.fields[base.value].ty;
          if !baseType.Struct? {
            return Panicked;
          }
          var j := FieldIndex(baseType.fields, parts[0]);
          if j != None {
            outcome := SetFieldValue(parser, Target(baseType.fields[j.value].ty, [base.value, j.value]), value);
            return;
          }
        }
      }
      var current, path, i := ty, [], 0;
      while i < |parts| - 1
        invariant 0 <= i < |parts|
        invariant LookupFrom(ty, [], parts) == LookupFrom(current, path, parts[i..])
        invariant leaves == old(leaves) && old(created) <= created
        invariant created + PointersPassed(current, path, parts[i..]) == old(created) + PointersPassed(ty, [], parts)
      {
        if !current.Struct? {
          return Panicked;
        }
        var field := FieldIndex(current.fields, parts[i]);
        if field == None {
          return FieldNotFound;
        }
        path := path + [field.value];
        if current.fields[field.value].ty.Pointer? {
          created := created + {path};
        }
        current := Inside(current.fields[field.value].ty);
        assert parts[i..][1..] == parts[i + 1..];
        i := i + 1;
      }
      if !current.Struct? {
        return Panicked;
      }
      var field := FieldIndex(current.fields, parts[i]);
      if field == None {
        return FieldNotFound;
      }
      outcome := SetFieldValue(parser, Target(current.fields[field.value].ty, path + [field.value]), value);
    }

    /** `applyConfigOverrides`. */
    method ApplyConfigOverrides(parser: DurationParser, overrides: seq<string>) returns (outcome: Outcome)
      requires ty.Struct?
      modifies this
      ensures (leaves, outcome) == ApplyAll(parser, ty, old(leaves), overrides)
      ensures old(NoLeafBehindNil()) ==> NoLeafBehindNil()
    {
      for k := 0 to |overrides|
        invariant ApplyAll(parser, ty, leaves, overrides[k..]) == ApplyAll(parser, ty, old(leaves), overrides)
        invariant old(NoLeafBehindNil()) ==> NoLeafBehindNil()
      {
        assert overrides[k..][0] == overrides[k] && overrides[k..][1..] == overrides[k + 1..];
        outcome := ApplyOverride(parser, overrides[k]);
        if outcome != Applied {
          return;
        }
      }
      outcome := Applied;
    }

    /** One turn of that loop: split at the first equals sign, then update the field. */
    method ApplyOverride(parser: DurationParser, override: string) returns (outcome: Outcome)
      requires ty.Struct?
      modifies this
      ensures leaves == ApplyEffect(old(leaves), OverrideEffect(parser, ty, override))
      ensures match OverrideEffect(parser, ty, override)
        case Write(_, _) => outcome == Applied
        case Error(o) => outcome == o != Applied
      ensures old(NoLeafBehindNil()) ==> NoLeafBehindNil()
    {
      FirstEqualsIs(override);
      var equals := FirstEquals(override);
      if equals == None {
        return InvalidFormat;
      }
      outcome := UpdateConfigField(parser, override[..equals.value], override[equals.value + 1..]);
    }
  }
}
