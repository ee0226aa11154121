/**
 Environment overrides on a nested configuration: setting and getting by dotted path, the laws that
 tie the two together, and the overlay of a whole map of variables.
 */
module EnvOverlay {
  import opened Text

  datatype Value =
    | Text(text: string)
    | Flag(flag: bool)
    | Number(number: int)
    | Items(items: seq<string>)
    | Table(entries: map<string, Value>)

  type Config = map<string, Value>

  type Path = seq<string>

  // ---------------------------------------------------------------------------------------------
  // Setting and getting
  // ---------------------------------------------------------------------------------------------

  /** The table under a key; what is not a table counts as an empty one. */
  function Child(c: Config, key: string): Config {
    if key in c && c[key].Table? then c[key].entries else map[]
  }

  /** Tables along the path are created, or replace what is not a table. */
  function Set(c: Config, path: Path, v: Value): Config
    requires path != []
    decreases |path|
  {
    if |path| == 1 then c[path[0] := v]
    else c[path[0] := Table(Set(Child(c, path[0]), path[1..], v))]
  }

  /** The value at a path, if every step leads through a table. */
  function Get(v: Value, path: Path): Option<Value>
    decreases |path|
  {
    if path == [] then Some(v)
    else if !v.Table? || path[0] !in v.entries then None
    else Get(v.entries[path[0]], path[1..])
  }

  /** The walk with a moving cursor. */
  method GetNested(c: Config, dotted: string) returns (r: Option<Value>)
    ensures r == Get(Table(c), SplitOn(dotted, '.'))
  {
    var keys := SplitOn(dotted, '.');
    var current := Table(c);
    for n := 0 to |keys|
      invariant Get(current, keys[n..]) == Get(Table(c), keys)
    {
      assert keys[n..][1..] == keys[n + 1..];
      if !current.Table? || keys[n] !in current.entries {
        return None;
      }
      current := current.entries[keys[n]];
    }
    return Some(current);
  }

  /** Neither path leads through the other. */
  predicate Unrelated(p: Path, q: Path) {
    !(p <= q) && !(q <= p)
  }

  /** Set, then get: the value is there. */
  lemma {:induction false} GetSet(c: Config, path: Path, v: Value)
    requires path != []
    ensures Get(Table(Set(c, path, v)), path) == Some(v)
    decreases |path|
  {
    if |path| > 1 {
      GetSet(Child(c, path[0]), path[1..], v);
    }
  }

  /** Set what is already there: nothing changes. */
  lemma {:induction false} SetGet(c: Config, path: Path, v: Value)
    requires path != [] && Get(Table(c), path) == Some(v)
    ensures Set(c, path, v) == c
    decreases |path|
  {
    if |path| > 1 {
      assert c[path[0]].Table?;
      SetGet(c[path[0]].entries, path[1..], v);
    } else {
      assert Get(c[path[0]], path[1..]) == Some(c[path[0]]);
    }
  }

  /** The later of two sets at one path wins. */
  lemma {:induction false} SetSet(c: Config, path: Path, v: Value, w: Value)
    requires path != []
    ensures Set(Set(c, path, v), path, w) == Set(c, path, w)
    decreases |path|
  {
    if |path| > 1 {
      SetSet(Child(c, path[0]), path[1..], v, w);
      assert Child(Set(c, path, v), path[0]) == Set(Child(c, path[0]), path[1..], v);
    }
  }

  lemma {:induction false} PrefixOfTails(p: Path, q: Path)
    requires p != [] && q != [] && p[0] == q[0]
    ensures p <= q <==> p[1..] <= q[1..]
    ensures |p| == 1 ==> p <= q
  {
    assert p == [p[0]] + p[1..] && q == [q[0]] + q[1..];
  }

  lemma {:induction false} UnrelatedTails(p: Path, q: Path)
    requires p != [] && q != [] && Unrelated(p, q) && p[0] == q[0]
    ensures |p| > 1 && |q| > 1 && Unrelated(p[1..], q[1..])
  {
    PrefixOfTails(p, q);
    PrefixOfTails(q, p);
  }

  lemma {:induction false} EmptyGet(path: Path)
    requires path != []
    ensures Get(Table(map[]), path) == None
  {
  }

  /** An unrelated path reads as before. */
  lemma {:induction false} GetSetOther(c: Config, p: Path, q: Path, v: Value)
    requires p != [] && q != [] && Unrelated(p, q)
    ensures Get(Table(Set(c, p, v)), q) == Get(Table(c), q)
    decreases |p|
  {
    if p[0] == q[0] {
      UnrelatedTails(p, q);
      GetSetOther(Child(c, p[0]), p[1..], q[1..], v);
      EmptyGet(q[1..]);
    }
  }

  /** The value a set puts under the first key of its path; it depends on that key's child alone. */
  function Under(child: Config, path: Path, v: Value): Value
    requires path != []
  {
    if |path| == 1 then v else Table(Set(child, path[1..], v))
  }

  lemma SetIsUpdate(c: Config, path: Path, v: Value)
    requires path != []
    ensures Set(c, path, v) == c[path[0] := Under(Child(c, path[0]), path, v)]
  {
  }

  lemma {:induction false} ApartCommute(c: Config, p: Path, q: Path, v: Value, w: Value)
    requires p != [] && q != [] && p[0] != q[0]
    ensures Set(Set(c, p, v), q, w) == Set(Set(c, q, w), p, v)
  {
    hide Set, Under;
    SetIsUpdate(c, p, v);
    SetIsUpdate(c, q, w);
    SetIsUpdate(Set(c, p, v), q, w);
    SetIsUpdate(Set(c, q, w), p, v);
  }

  /** Sets at unrelated paths commute. */
  lemma {:induction false} SetsCommute(c: Config, p: Path, q: Path, v: Value, w: Value)
    requires p != [] && q != [] && Unrelated(p, q)
    ensures Set(Set(c, p, v), q, w) == Set(Set(c, q, w), p, v)
    decreases |p|
  {
    if p[0] != q[0] {
      ApartCommute(c, p, q, v, w);
    } else {
      UnrelatedTails(p, q);
      SetsCommute(Child(c, p[0]), p[1..], q[1..], v, w);
      NestedSet(c, p, q, v, w);
      NestedSet(c, q, p, w, v);
    }
  }

  lemma {:induction false} NestedSet(c: Config, p: Path, q: Path, v: Value, w: Value)
    requires |p| > 1 && |q| > 1 && p[0] == q[0]
    ensures Set(Set(c, p, v), q, w) == c[p[0] := Table(Set(Set(Child(c, p[0]), p[1..], v), q[1..], w))]
  {
    assert Child(Set(c, p, v), p[0]) == Set(Child(c, p[0]), p[1..], v);
  }

  predicate LeadsToTable(c: Config, path: Path) {
    Get(Table(c), path).Some? && Get(Table(c), path).value.Table?
  }

  /** Making an empty table where a path leads to none does not change what a set further down gives. */
  lemma {:induction false} EmptyTableFirst(c: Config, q: Path, rest: Path, v: Value)
    requires q != [] && rest != [] && !LeadsToTable(c, q)
    ensures Set(Set(c, q, Table(map[])), q + rest, v) == Set(c, q + rest, v)
    decreases |q|
  {
    var all := q + rest;
    assert all[0] == q[0] && all[1..] == q[1..] + rest;
    if |q| == 1 {
      assert q[1..] + rest == rest;
      assert q[0] in c ==> Get(c[q[0]], q[1..]) == Some(c[q[0]]);
      assert Child(c, q[0]) == map[];
      assert Child(c[q[0] := Table(map[])], q[0]) == map[];
    } else {
      EmptyTableFirst(Child(c, q[0]), q[1..], rest, v);
      NestedSet(c, q, all, Table(map[]), v);
    }
  }

  // ---------------------------------------------------------------------------------------------
  // Coercion
  // ---------------------------------------------------------------------------------------------

  datatype Kind = Bool | Int | CommaList | Plain

  datatype Environment = Environment(vars: map<string, string>, files: map<string, string>)

  /** A readable file named by VAR_FILE takes precedence, trimmed; otherwise the variable itself. */
  function EnvOrFile(env: Environment, name: string): Option<string> {
    var named := name + "_FILE";
    if named in env.vars && env.vars[named] != "" && env.vars[named] in env.files then Some(Strip(env.files[env.vars[named]]))
    else if name in env.vars then Some(env.vars[name])
    else None
  }

  predicate CoerceBool(raw: string) {
    var low := Lower(raw);
    low == "yes" || low == "true" || low == "1" || low == "on"
  }

  /** The texts that read as true: these words in any case. */
  lemma {:induction false} TrueWords(raw: string)
    ensures CoerceBool(raw) <==>
      || raw == "1"
      || (|raw| == 2 && Spells(raw[0], 'o') && Spells(raw[1], 'n'))
      || (|raw| == 3 && Spells(raw[0], 'y') && Spells(raw[1], 'e') && Spells(raw[2], 's'))
      || (|raw| == 4 && Spells(raw[0], 't') && Spells(raw[1], 'r') && Spells(raw[2], 'u') && Spells(raw[3], 'e'))
  {
    var low := Lower(raw);
    assert low == "1" <==> raw == "1";
    assert forall i :: 0 <= i < |raw| ==> low[i] == LowerChar(raw[i]);
    if |raw| == 2 {
      assert low == [low[0], low[1]];
    } else if |raw| == 3 {
      assert low == [low[0], low[1], low[2]];
    } else if |raw| == 4 {
      assert low == [low[0], low[1], low[2], low[3]];
    }
  }

  /** The character is the lower-case letter or its capital. */
  predicate Spells(c: char, letter: char) {
    c == letter || c as int == letter as int - 32
  }

  /** A readable file named by VAR_FILE wins over the variable; without one the variable counts, as it is. */
  lemma {:induction false} FileWins(env: Environment, name: string, path: string)
    ensures name + "_FILE" in env.vars && env.vars[name + "_FILE"] == path && path != "" && path in env.files ==>
      EnvOrFile(env, name) == Some(Strip(env.files[path]))
    ensures name + "_FILE" !in env.vars || env.vars[name + "_FILE"] == "" || env.vars[name + "_FILE"] !in env.files ==>
      EnvOrFile(env, name) == if name in env.vars then Some(env.vars[name]) else None
  {
  }

  function StripAll(pieces: seq<string>): seq<string> {
    seq(|pieces|, i requires 0 <= i < |pieces| => Strip(pieces[i]))
  }

  /** The value to set; unset, empty, non-numeric and negative inputs leave the configuration alone. */
  function Coerced(kind: Kind, raw: Option<string>): Option<Value> {
    if raw.None? || raw.value == "" then None
    else
      match kind
      case Bool => Some(Flag(CoerceBool(raw.value)))
      case Int =>
        var parsed := PyInt(raw.value);
        if parsed.None? || parsed.value < 0 then None else Some(Number(parsed.value))
      case CommaList => Some(Items(StripAll(SplitOn(raw.value, ','))))
      case Plain => Some(Text(raw.value))
  }

  /** Numbers are read back from their numerals, and negative ones are ignored. */
  lemma {:induction false} CoercedNumber(n: int)
    ensures Coerced(Int, Some(DecInt(n))) == if n < 0 then None else Some(Number(n))
  {
    hide PyInt, DecInt;
    PyIntOfDecInt(n);
  }

  /** Whatever the kind, nothing set and the empty text change nothing; other texts are taken as they are where no kind is given. */
  lemma {:induction false} CoercedText(kind: Kind, raw: string)
    ensures Coerced(kind, None) == None && Coerced(kind, Some("")) == None
    ensures raw != "" ==> Coerced(Plain, Some(raw)) == Some(Text(raw)) && Coerced(Bool, Some(raw)) == Some(Flag(CoerceBool(raw)))
  {
  }

  /** A list is read back from its comma-joined text, without the space around each item. */
  lemma {:induction false} CoercedList(texts: seq<string>, items: seq<string>)
    requires |texts| >= 1 && |items| == |texts| && Join(texts, ',') != ""
    requires forall i :: 0 <= i < |texts| ==> ',' !in texts[i] && Strip(texts[i]) == items[i]
    ensures Coerced(CommaList, Some(Join(texts, ','))) == Some(Items(items))
  {
    hide SplitOn, Join, Strip;
    SplitJoin(texts, ',');
    assert StripAll(texts) == items;
  }

  // ---------------------------------------------------------------------------------------------
  // The overlay
  // ---------------------------------------------------------------------------------------------

  /** One row of the variable map: a dotted path, its variable, and how its text is read. */
  datatype Mapping = Mapping(dotted: string, name: string, kind: Kind)

  function PathOf(m: Mapping): (p: Path)
    ensures p != []
  {
    SplitOn(m.dotted, '.')
  }

  /** A dotted path is its keys joined by dots. */
  lemma {:induction false} DottedPath(keys: seq<string>, name: string, kind: Kind)
    requires |keys| >= 1 && forall i :: 0 <= i < |keys| ==> '.' !in keys[i]
    ensures PathOf(Mapping(Join(keys, '.'), name, kind)) == keys
  {
    SplitJoin(keys, '.');
  }

  function Override(env: Environment, m: Mapping): Option<Value> {
    Coerced(m.kind, EnvOrFile(env, m.name))
  }

  function Apply(c: Config, env: Environment, m: Mapping): Config {
    var v := Override(env, m);
    if v.None? then c else Set(c, PathOf(m), v.value)
  }

  function Overlay(c: Config, env: Environment, rows: seq<Mapping>): Config
    decreases |rows|
  {
    if rows == [] then c else Overlay(Apply(c, env, rows[0]), env, rows[1..])
  }

  /** A later row is applied to what the rows before it gave. */
  lemma {:induction false} OverlayAppend(c: Config, env: Environment, rows: seq<Mapping>, m: Mapping)
    ensures Overlay(c, env, rows + [m]) == Apply(Overlay(c, env, rows), env, m)
    decreases |rows|
  {
    hide Apply;
    var all := rows + [m];
    if rows == [] {
      assert all[1..] == [];
    } else {
      assert all[1..] == rows[1..] + [m];
      OverlayAppend(Apply(c, env, rows[0]), env, rows[1..], m);
    }
  }

  /** No two rows have related paths. */
  ghost predicate PrefixFree(rows: set<Mapping>) {
    forall x, y :: x in rows && y in rows && x != y ==> Unrelated(PathOf(x), PathOf(y))
  }

  /** The sequence lists the rows, each once, in some order. */
  ghost predicate Lists(order: seq<Mapping>, rows: set<Mapping>) {
    && (forall x :: x in order <==> x in rows)
    && (forall i, j :: 0 <= i < j < |order| ==> order[i] != order[j])
  }

  lemma {:induction false} ApplyReadsOther(c: Config, env: Environment, m: Mapping, q: Path)
    requires q != [] && (Override(env, m).Some? ==> Unrelated(PathOf(m), q))
    ensures Get(Table(Apply(c, env, m)), q) == Get(Table(c), q)
  {
    if Override(env, m).Some? {
      GetSetOther(c, PathOf(m), q, Override(env, m).value);
    }
  }

  /** A path unrelated to every overridden one reads as before. */
  lemma {:induction false} OverlayFrame(c: Config, env: Environment, order: seq<Mapping>, q: Path)
    requires q != []
    requires forall i :: 0 <= i < |order| && Override(env, order[i]).Some? ==> Unrelated(PathOf(order[i]), q)
    ensures Get(Table(Overlay(c, env, order)), q) == Get(Table(c), q)
    decreases |order|
  {
    if order != [] {
      ApplyReadsOther(c, env, order[0], q);
      var rest := order[1..];
      assert forall i :: 0 <= i < |rest| ==> rest[i] == order[i + 1];
      OverlayFrame(Apply(c, env, order[0]), env, rest, q);
    }
  }

  /** Each mapped path reads its coerced variable, or its original value when there is none. */
  lemma {:induction false} OverlayReads(c: Config, env: Environment, order: seq<Mapping>, i: nat)
    requires i < |order|
    requires forall a, b :: 0 <= a < b < |order| ==> Unrelated(PathOf(order[a]), PathOf(order[b]))
    ensures var v := Override(env, order[i]);
            Get(Table(Overlay(c, env, order)), PathOf(order[i])) == if v.Some? then v else Get(Table(c), PathOf(order[i]))
    decreases |order|
  {
    var rest, c' := order[1..], Apply(c, env, order[0]);
    assert forall k :: 0 <= k < |rest| ==> rest[k] == order[k + 1];
    if i == 0 {
      OverlayFrame(c', env, rest, PathOf(order[0]));
      if Override(env, order[0]).Some? {
        GetSet(c, PathOf(order[0]), Override(env, order[0]).value);
      }
    } else {
      OverlayReads(c', env, rest, i - 1);
      ApplyReadsOther(c, env, order[0], PathOf(order[i]));
    }
  }

  lemma {:induction false} AppliesCommute(c: Config, env: Environment, x: Mapping, y: Mapping)
    requires Unrelated(PathOf(x), PathOf(y))
    ensures Apply(Apply(c, env, x), env, y) == Apply(Apply(c, env, y), env, x)
  {
    if Override(env, x).Some? && Override(env, y).Some? {
      SetsCommute(c, PathOf(x), PathOf(y), Override(env, x).value, Override(env, y).value);
    }
  }

  /** A row unrelated to those before it can be applied first. */
  lemma {:induction false} MoveToFront(c: Config, env: Environment, order: seq<Mapping>, j: nat)
    requires j < |order|
    requires forall i :: 0 <= i < j ==> Unrelated(PathOf(order[i]), PathOf(order[j]))
    ensures Overlay(c, env, order) == Overlay(Apply(c, env, order[j]), env, order[..j] + order[j + 1..])
    decreases j
  {
    if j == 0 {
      assert order[..0] + order[1..] == order[1..];
    } else {
      var x, y, rest := order[0], order[j], order[1..];
      assert forall i :: 0 <= i < |rest| ==> rest[i] == order[i + 1];
      MoveToFront(Apply(c, env, x), env, rest, j - 1);
      AppliesCommute(c, env, x, y);
      var others := order[..j] + order[j + 1..];
      assert others[0] == x;
      assert others[1..] == rest[..j - 1] + rest[j..];
    }
  }

  lemma {:induction false} WithoutOne(order: seq<Mapping>, rows: set<Mapping>, j: nat)
    requires Lists(order, rows) && j < |order|
    ensures Lists(order[..j] + order[j + 1..], rows - {order[j]})
  {
    var others := order[..j] + order[j + 1..];
    assert forall k :: 0 <= k < |others| ==> others[k] == order[if k < j then k else k + 1];
    forall x ensures x in others <==> x in rows - {order[j]} {
      if x in rows && x != order[j] {
        var k :| 0 <= k < |order| && order[k] == x;
        assert others[if k < j then k else k - 1] == x;
      }
    }
  }

  lemma {:induction false} Inhabited(b: seq<Mapping>)
    requires b != []
    ensures exists m :: m in b
  {
    assert b[0] in b;
  }

  /** The result does not depend on the order of the map. */
  lemma {:induction false} OrderIndependent(c: Config, env: Environment, a: seq<Mapping>, b: seq<Mapping>, rows: set<Mapping>)
    requires PrefixFree(rows) && Lists(a, rows) && Lists(b, rows)
    ensures Overlay(c, env, a) == Overlay(c, env, b)
    decreases |a|
  {
    if a == [] {
      if b != [] {
        Inhabited(b);
      }
    } else {
      var x := a[0];
      assert x in a;
      var j :| 0 <= j < |b| && b[j] == x;
      assert forall i :: 0 <= i < j ==> b[i] in b;
      MoveToFront(c, env, b, j);
      WithoutOne(b, rows, j);
      WithoutOne(a, rows, 0);
      assert a[..0] + a[1..] == a[1..];
      OrderIndependent(Apply(c, env, x), env, a[1..], b[..j] + b[j + 1..], rows - {x});
    }
  }
}
