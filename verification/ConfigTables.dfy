/**
 The configuration as the dashboard holds it: tables that are objects and are changed in place. The
 cursor loop that sets a dotted path is proved to do what `EnvOverlay.Set` does on values, for
 configurations in which no table is reachable twice.
 */
module ConfigTables {
  import opened Text
  import opened EnvOverlay

  datatype Cell = Simple(value: Value) | Nested(dict: Dict)

  class Dict {
    var entries: map<string, Cell>

    constructor ()
      ensures entries == map[]
    {
      entries := map[];
    }
  }

  // ---------------------------------------------------------------------------------------------
  // The tree of tables behind a table
  // ---------------------------------------------------------------------------------------------

  /** Which objects the tables of a configuration are, and what they hold. */
  datatype Shape = Shape(dict: Dict, kids: map<string, Kid>)

  datatype Kid = Leaf(value: Value) | Sub(shape: Shape)

  ghost function Footprint(t: Shape): set<Dict> {
    {t.dict} + set k, d | k in t.kids && d in KidFootprint(t.kids[k]) :: d
  }

  ghost function KidFootprint(k: Kid): set<Dict> {
    match k
    case Leaf(_) => {}
    case Sub(s) => Footprint(s)
  }

  /** No table is reachable twice, and a leaf is no table. */
  ghost predicate Unshared(t: Shape) {
    && (forall k :: k in t.kids ==> t.dict !in KidFootprint(t.kids[k]) && KidUnshared(t.kids[k]))
    && (forall k, l :: k in t.kids && l in t.kids && k != l ==> KidFootprint(t.kids[k]) !! KidFootprint(t.kids[l]))
  }

  ghost predicate KidUnshared(k: Kid) {
    match k
    case Leaf(v) => !v.Table?
    case Sub(s) => Unshared(s)
  }

  /** What some tables hold at one moment. */
  type Heap = map<Dict, map<string, Cell>>

  ghost function Snapshot(dicts: set<Dict>): Heap
    reads dicts
  {
    map d | d in dicts :: d.entries
  }

  /** At that moment the tables hold this tree. */
  ghost predicate Mirrors(h: Heap, t: Shape)
    decreases t
  {
    && t.dict in h && h[t.dict].Keys == t.kids.Keys
    && forall k :: k in t.kids ==> CellMirrors(h, h[t.dict][k], t.kids[k])
  }

  ghost predicate CellMirrors(h: Heap, c: Cell, k: Kid)
    decreases k
  {
    match k
    case Leaf(v) => c == Simple(v)
    case Sub(s) => c == Nested(s.dict) && Mirrors(h, s)
  }

  /** The configuration a tree stands for. */
  ghost function Content(t: Shape): Config {
    map k | k in t.kids :: KidContent(t.kids[k])
  }

  ghost function KidContent(k: Kid): Value {
    match k
    case Leaf(v) => v
    case Sub(s) => Table(Content(s))
  }

  // ---------------------------------------------------------------------------------------------
  // Walking and changing the tree
  // ---------------------------------------------------------------------------------------------

  /** The path leads through tables all the way. */
  ghost predicate Leads(t: Shape, p: Path) {
    p == [] || (p[0] in t.kids && t.kids[p[0]].Sub? && Leads(t.kids[p[0]].shape, p[1..]))
  }

  ghost function At(t: Shape, p: Path): Shape
    requires Leads(t, p)
  {
    if p == [] then t else At(t.kids[p[0]].shape, p[1..])
  }

  /** The tree with `kid` under `key` in the table at `p`. */
  ghost function Put(t: Shape, p: Path, key: string, kid: Kid): Shape
    requires Leads(t, p)
  {
    if p == [] then Shape(t.dict, t.kids[key := kid])
    else Shape(t.dict, t.kids[p[0] := Sub(Put(t.kids[p[0]].shape, p[1..], key, kid))])
  }

  lemma {:induction false} AtWithin(t: Shape, p: Path)
    requires Leads(t, p)
    ensures Footprint(At(t, p)) <= Footprint(t)
  {
    if p != [] {
      AtWithin(t.kids[p[0]].shape, p[1..]);
      assert KidFootprint(t.kids[p[0]]) <= Footprint(t);
    }
  }

  lemma {:induction false} AtMirrors(h: Heap, t: Shape, p: Path)
    requires Leads(t, p) && Mirrors(h, t)
    ensures Mirrors(h, At(t, p))
  {
    if p != [] {
      assert CellMirrors(h, h[t.dict][p[0]], t.kids[p[0]]);
      AtMirrors(h, t.kids[p[0]].shape, p[1..]);
    }
  }

  /** Only the tables of the tree matter. */
  lemma {:induction false} MirrorsFrame(h: Heap, h': Heap, t: Shape)
    requires Mirrors(h, t) && forall d :: d in Footprint(t) && d in h ==> d in h' && h'[d] == h[d]
    ensures Mirrors(h', t)
    decreases t
  {
    forall k | k in t.kids ensures CellMirrors(h', h'[t.dict][k], t.kids[k]) {
      assert CellMirrors(h, h[t.dict][k], t.kids[k]);
      if t.kids[k].Sub? {
        assert KidFootprint(t.kids[k]) <= Footprint(t);
        MirrorsFrame(h, h', t.kids[k].shape);
      }
    }
  }

  /** The tables determine the tree, so what they stand for is no choice of the proof. */
  lemma {:induction false} MirrorUnique(h: Heap, t: Shape, u: Shape)
    requires Mirrors(h, t) && Mirrors(h, u) && t.dict == u.dict
    ensures t == u
    decreases t
  {
    forall k | k in t.kids ensures t.kids[k] == u.kids[k] {
      assert CellMirrors(h, h[t.dict][k], t.kids[k]) && CellMirrors(h, h[u.dict][k], u.kids[k]);
      if t.kids[k].Sub? {
        MirrorUnique(h, t.kids[k].shape, u.kids[k].shape);
      }
    }
    assert t.kids == u.kids;
  }

  lemma {:induction false} CellFrame(h: Heap, h': Heap, c: Cell, k: Kid)
    requires CellMirrors(h, c, k) && forall d :: d in KidFootprint(k) && d in h ==> d in h' && h'[d] == h[d]
    ensures CellMirrors(h', c, k)
  {
    if k.Sub? {
      MirrorsFrame(h, h', k.shape);
    }
  }

  lemma {:induction false} PutFootprint(t: Shape, p: Path, key: string, kid: Kid)
    requires Leads(t, p)
    ensures Footprint(Put(t, p, key, kid)) <= Footprint(t) + KidFootprint(kid)
  {
    var u := Put(t, p, key, kid);
    if p != [] {
      PutFootprint(t.kids[p[0]].shape, p[1..], key, kid);
    }
    forall k, d | k in u.kids && d in KidFootprint(u.kids[k]) ensures d in Footprint(t) + KidFootprint(kid) {
      if k in t.kids && u.kids[k] == t.kids[k] {
        assert d in KidFootprint(t.kids[k]);
      } else if p != [] {
        assert KidFootprint(t.kids[p[0]]) <= Footprint(t);
      }
    }
  }

  lemma {:induction false} PutUnshared(t: Shape, p: Path, key: string, kid: Kid)
    requires Leads(t, p) && Unshared(t) && KidUnshared(kid) && KidFootprint(kid) !! Footprint(t)
    ensures Unshared(Put(t, p, key, kid))
  {
    assert forall k :: k in t.kids ==> KidFootprint(t.kids[k]) <= Footprint(t);
    if p != [] {
      var below := t.kids[p[0]].shape;
      PutUnshared(below, p[1..], key, kid);
      PutFootprint(below, p[1..], key, kid);
    }
  }

  /** Writing one entry of the table at `p` turns the mirrored tree into the changed one. */
  lemma {:induction false} PutMirrors(h: Heap, h': Heap, t: Shape, p: Path, key: string, kid: Kid, cell: Cell)
    requires Leads(t, p) && Unshared(t) && Mirrors(h, t)
    requires var at := At(t, p).dict;
             && (forall d :: d in Footprint(t) && d in h ==> d in h' && (d != at ==> h'[d] == h[d]))
             && at in h && at in h' && h'[at] == h[at][key := cell]
    requires CellMirrors(h', cell, kid)
    ensures Mirrors(h', Put(t, p, key, kid))
  {
    var u := Put(t, p, key, kid);
    assert forall k :: k in t.kids ==> KidFootprint(t.kids[k]) <= Footprint(t);
    if p != [] {
      var below := t.kids[p[0]].shape;
      AtWithin(below, p[1..]);
      assert CellMirrors(h, h[t.dict][p[0]], t.kids[p[0]]);
      assert At(below, p[1..]).dict in KidFootprint(t.kids[p[0]]);
      PutMirrors(h, h', below, p[1..], key, kid, cell);
    }
    var changed := if p == [] then key else p[0];
    forall k | k in u.kids ensures CellMirrors(h', h'[u.dict][k], u.kids[k]) {
      if k != changed {
        assert CellMirrors(h, h[t.dict][k], t.kids[k]);
        CellFrame(h, h', h[t.dict][k], t.kids[k]);
      }
    }
  }

  lemma {:induction false} PutLeads(t: Shape, p: Path, key: string, s: Shape)
    requires Leads(t, p)
    ensures Leads(Put(t, p, key, Sub(s)), p + [key]) && At(Put(t, p, key, Sub(s)), p + [key]) == s
  {
    var q := p + [key];
    if p == [] {
      assert q[1..] == [];
    } else {
      assert q[1..] == p[1..] + [key];
      PutLeads(t.kids[p[0]].shape, p[1..], key, s);
    }
  }

  lemma {:induction false} StepLeads(t: Shape, p: Path, key: string)
    requires Leads(t, p) && key in At(t, p).kids && At(t, p).kids[key].Sub?
    ensures Leads(t, p + [key]) && At(t, p + [key]) == At(t, p).kids[key].shape
  {
    var q := p + [key];
    if p == [] {
      assert q[1..] == [];
    } else {
      assert q[1..] == p[1..] + [key];
      StepLeads(t.kids[p[0]].shape, p[1..], key);
    }
  }

  /** On contents, putting is setting. */
  lemma {:induction false} PutIsSet(t: Shape, p: Path, key: string, kid: Kid)
    requires Leads(t, p)
    ensures Content(Put(t, p, key, kid)) == Set(Content(t), p + [key], KidContent(kid))
  {
    var q := p + [key];
    if p == [] {
      assert Content(Put(t, p, key, kid)) == Content(t)[key := KidContent(kid)];
    } else {
      assert q[1..] == p[1..] + [key];
      var below := t.kids[p[0]].shape;
      PutIsSet(below, p[1..], key, kid);
      assert Child(Content(t), p[0]) == Content(below);
      assert Content(Put(t, p, key, kid)) == Content(t)[p[0] := Table(Content(Put(below, p[1..], key, kid)))];
    }
  }

  /** On contents, looking up is getting. */
  lemma {:induction false} AtIsGet(t: Shape, p: Path, key: string)
    requires Leads(t, p)
    ensures var kids := At(t, p).kids;
            Get(Table(Content(t)), p + [key]) == if key in kids then Some(KidContent(kids[key])) else None
  {
    var q := p + [key];
    if p == [] {
      assert q[1..] == [];
    } else {
      assert q[1..] == p[1..] + [key];
      AtIsGet(t.kids[p[0]].shape, p[1..], key);
    }
  }

  /** Where the tree has no table, neither has the content. */
  lemma {:induction false} NoTableAt(t: Shape, p: Path, key: string)
    requires Leads(t, p) && Unshared(t)
    requires key !in At(t, p).kids || !At(t, p).kids[key].Sub?
    ensures !LeadsToTable(Content(t), p + [key])
  {
    AtIsGet(t, p, key);
    AtUnshared(t, p);
    if key in At(t, p).kids {
      assert KidUnshared(At(t, p).kids[key]);
    }
  }

  lemma {:induction false} AtUnshared(t: Shape, p: Path)
    requires Leads(t, p) && Unshared(t)
    ensures Unshared(At(t, p))
  {
    if p != [] {
      assert KidUnshared(t.kids[p[0]]);
      AtUnshared(t.kids[p[0]].shape, p[1..]);
    }
  }

  // ---------------------------------------------------------------------------------------------
  // The loop
  // ---------------------------------------------------------------------------------------------

  /** Nothing in the tree is shared, and from this table on the tables hold it. */
  ghost predicate Holds(data: Dict, t: Shape)
    reads Footprint(t)
  {
    t.dict == data && Unshared(t) && Mirrors(Snapshot(Footprint(t)), t)
  }

  lemma {:induction false} HoldsByAny(h: Heap, data: Dict, t: Shape)
    requires t.dict == data && Unshared(t) && Mirrors(h, t)
    requires forall d :: d in Footprint(t) && d in h ==> h[d] == d.entries
    ensures Holds(data, t)
  {
    MirrorsFrame(h, Snapshot(Footprint(t)), t);
  }

  lemma {:induction false} TablesExist(t: Shape)
    ensures allocated(Footprint(t))
  {
    forall k | k in t.kids && t.kids[k].Sub? ensures allocated(Footprint(t.kids[k].shape)) {
      TablesExist(t.kids[k].shape);
    }
  }

  /** `current[key] = cell`, where `current` is the table at `p` of the tree. */
  method Assign(current: Dict, key: string, cell: Cell, ghost t: Shape, ghost p: Path, ghost kid: Kid)
    requires Holds(t.dict, t) && Leads(t, p) && At(t, p).dict == current
    requires KidUnshared(kid) && KidFootprint(kid) !! Footprint(t)
    requires CellMirrors(Snapshot(KidFootprint(kid)), cell, kid)
    modifies current
    ensures Holds(t.dict, Put(t, p, key, kid))
  {
    hide Mirrors, Unshared, CellMirrors;
    AtWithin(t, p);
    ghost var h, k := Snapshot(Footprint(t)), Snapshot(KidFootprint(kid));
    current.entries := current.entries[key := cell];
    ghost var h' := Snapshot(Footprint(t) + KidFootprint(kid));
    CellFrame(k, h', cell, kid);
    PutMirrors(h, h', t, p, key, kid, cell);
    PutUnshared(t, p, key, kid);
    PutFootprint(t, p, key, kid);
    HoldsByAny(h', t.dict, Put(t, p, key, kid));
  }

  lemma FreshTable(d: Dict)
    requires d.entries == map[]
    ensures var t := Shape(d, map[]);
            Footprint(t) == {d} && Holds(d, t) && Content(t) == map[] && CellMirrors(Snapshot({d}), Nested(d), Sub(t))
  {
  }

  /** What the cursor sees under a key is what the tree says. */
  lemma {:induction false} AtCells(data: Dict, t: Shape, p: Path, key: string)
    requires Holds(data, t) && Leads(t, p)
    ensures var s := At(t, p);
            && (key in s.dict.entries <==> key in s.kids)
            && (key in s.kids ==> (s.dict.entries[key].Nested? <==> s.kids[key].Sub?))
            && (key in s.kids && s.kids[key].Sub? ==> s.dict.entries[key].dict == s.kids[key].shape.dict)
  {
    var h := Snapshot(Footprint(t));
    AtWithin(t, p);
    AtMirrors(h, t, p);
    var s := At(t, p);
    if key in s.kids {
      assert CellMirrors(h, h[s.dict][key], s.kids[key]);
    }
  }

  lemma HoldsAt(data: Dict, t: Shape)
    requires Holds(data, t)
    ensures t.dict == data && Unshared(t)
  {
  }

  lemma {:induction false} FreshKid(d: Dict)
    ensures KidUnshared(Sub(Shape(d, map[]))) && KidFootprint(Sub(Shape(d, map[]))) == {d}
    ensures KidContent(Sub(Shape(d, map[]))) == Table(map[])
  {
    assert Content(Shape(d, map[])) == map[];
  }

  lemma LeafKid(v: Value)
    requires !v.Table?
    ensures KidUnshared(Leaf(v)) && KidFootprint(Leaf(v)) == {} && KidContent(Leaf(v)) == v
    ensures CellMirrors(map[], Simple(v), Leaf(v))
  {
  }

  /** The walk down the path, making the tables that are missing, and the final assignment. */
  method SetNested(data: Dict, dotted: string, value: Value, ghost t: Shape) returns (ghost after: Shape)
    requires Holds(data, t) && !value.Table?
    modifies Footprint(t)
    ensures Holds(data, after) && (forall d :: d in Footprint(after) ==> d in Footprint(t) || fresh(d))
    ensures Content(after) == Set(Content(t), SplitOn(dotted, '.'), value)
  {
    hide Set, Content, Mirrors, CellMirrors, Unshared, Put, SplitOn, Holds;
    var keys := SplitOn(dotted, '.');
    after := t;
    var current := data;
    HoldsAt(data, t);
    for n := 0 to |keys| - 1
      invariant Holds(data, after) && (forall d :: d in Footprint(after) ==> d in Footprint(t) || fresh(d))
      invariant Leads(after, keys[..n]) && At(after, keys[..n]).dict == current
      invariant Set(Content(after), keys, value) == Set(Content(t), keys, value)
    {
      var key := keys[n];
      ghost var p := keys[..n];
      assert keys[..n + 1] == p + [key];
      HoldsAt(data, after);
      AtWithin(after, p);
      AtCells(data, after, p, key);
      if key !in current.entries || !current.entries[key].Nested? {
        TablesExist(after);
        var made := new Dict();
        ghost var kid := Sub(Shape(made, map[]));
        FreshTable(made);
        FreshKid(made);
        Assign(current, key, Nested(made), after, p, kid);
        PutFootprint(after, p, key, kid);
        PutLeads(after, p, key, kid.shape);
        PutIsSet(after, p, key, kid);
        NoTableAt(after, p, key);
        EmptyTableFirst(Content(after), p + [key], keys[n + 1..], value);
        assert keys == p + [key] + keys[n + 1..];
        after := Put(after, p, key, kid);
        current := made;
      } else {
        StepLeads(after, p, key);
        current := current.entries[key].dict;
      }
    }
    ghost var p, key := keys[..|keys| - 1], keys[|keys| - 1];
    assert keys == p + [key];
    HoldsAt(data, after);
    AtWithin(after, p);
    LeafKid(value);
    Assign(current, keys[|keys| - 1], Simple(value), after, p, Leaf(value));
    PutFootprint(after, p, key, Leaf(value));
    PutIsSet(after, p, key, Leaf(value));
    after := Put(after, p, key, Leaf(value));
  }

  /** The loop over the variable map, changing the configuration in place row by row. */
  method ApplyEnvOverrides(config: Dict, env: Environment, rows: seq<Mapping>, ghost t: Shape) returns (ghost after: Shape)
    requires Holds(config, t)
    modifies Footprint(t)
    ensures Holds(config, after) && (forall d :: d in Footprint(after) ==> d in Footprint(t) || fresh(d))
    ensures Content(after) == Overlay(Content(t), env, rows)
  {
    hide Set, Content, Holds, SplitOn, EnvOrFile, PyInt, CoerceBool, StripAll;
    after := t;
    for n := 0 to |rows|
      invariant Holds(config, after) && (forall d :: d in Footprint(after) ==> d in Footprint(t) || fresh(d))
      invariant Overlay(Content(after), env, rows[n..]) == Overlay(Content(t), env, rows)
    {
      var row := rows[n];
      assert rows[n..][1..] == rows[n + 1..];
      var raw := EnvOrFile(env, row.name);
      if raw.None? || raw.value == "" {
        continue;
      }
      if row.kind == Bool {
        after := SetNested(config, row.dotted, Flag(CoerceBool(raw.value)), after);
      } else if row.kind == Int {
        var parsed := PyInt(raw.value);
        if parsed.None? {
          continue;
        }
        if parsed.value < 0 {
          continue;
        }
        after := SetNested(config, row.dotted, Number(parsed.value), after);
      } else if row.kind == CommaList {
        after := SetNested(config, row.dotted, Items(StripAll(SplitOn(raw.value, ','))), after);
      } else {
        after := SetNested(config, row.dotted, Text(raw.value), after);
      }
    }
  }
}
