/**
 Two searches of a decoded YAML tree whose maps are visited in any order: `dockPoseValue` of
 gui/pkg/api/calibration_status.go and `extractYAMLFloat` of gui/pkg/api/diagnostics.go.
 */
module YamlTree {
  import opened Basics

  datatype Float = Finite(x: real) | NaN | Infinite

  /** A decoded value; conversions of integers to float64 are taken to be exact. */
  datatype Val =
    | Int(i: int)
    | Int64(l: int)
    | Uint64(u: nat)
    | Number(f: Float)
    | Other
    | Node(entries: map<string, Val>)

  type Path = seq<string>

  /** The finite number `dockPoseValue` sees in a value. */
  function Finitely(v: Val): Option<real> {
    match v
    case Int(i) => Some(i as real)
    case Int64(l) => Some(l as real)
    case Uint64(u) => Some(u as real)
    case Number(f) => if f.Finite? then Some(f.x) else None
    case _ => None
  }

  /** The number `extractYAMLFloat` sees in a value: it knows two of the four numeric types. */
  function Plainly(v: Val): Option<Float> {
    match v
    case Int(i) => Some(Finite(i as real))
    case Number(f) => Some(f)
    case _ => None
  }

  // ---------------------------------------------------------------- occurrences, without any order

  ghost function Under(name: string, ps: set<Path>): set<Path> {
    set p | p in ps :: [name] + p
  }

  /** Where `key` occurs through the entry `name` of a node: at the entry itself, and inside its value. */
  ghost function Through(name: string, v: Val, key: string): set<Path>
    decreases v, 1
  {
    (if name == key then {[name]} else {}) + Under(name, Occurrences(v, key))
  }

  /** All paths in the tree that end in `key`. */
  ghost function Occurrences(v: Val, key: string): set<Path>
    decreases v, 0
  {
    if !v.Node? then {} else set name, p | name in v.entries && p in Through(name, v.entries[name], key) :: p
  }

  /** The value a path leads to. */
  ghost function At(v: Val, path: Path): Option<Val>
    decreases |path|
  {
    if path == [] then Some(v)
    else if v.Node? && path[0] in v.entries then At(v.entries[path[0]], path[1..])
    else None
  }

  lemma {:induction false} OccurrencesArePaths(v: Val, key: string, path: Path)
    ensures path in Occurrences(v, key) <==> path != [] && path[|path| - 1] == key && At(v, path).Some?
    decreases v
  {
    if v.Node? && path != [] && path[0] in v.entries {
      var name, child := path[0], v.entries[path[0]];
      OccurrencesArePaths(child, key, path[1..]);
      assert path == [name] + path[1..];
      assert path in Occurrences(v, key) <==> path in Through(name, child, key) by {
        forall other | other in v.entries && path in Through(other, v.entries[other], key) ensures other == name {
        }
      }
      assert path in Under(name, Occurrences(child, key)) <==> path[1..] in Occurrences(child, key) by {
        forall p | p in Occurrences(child, key) && path == [name] + p ensures p == path[1..] {
        }
      }
      if |path| == 1 {
        assert path == [name];
      }
    } else if v.Node? {
      forall name | name in v.entries && path in Through(name, v.entries[name], key) ensures false {
      }
    }
  }

  // ---------------------------------------------------------------- counting them entry by entry

  /** The occurrences through the entries of a set of names. */
  ghost function Within(v: Val, key: string, names: set<string>): set<Path>
    requires v.Node? && names <= v.entries.Keys
  {
    set name, p | name in names && p in Through(name, v.entries[name], key) :: p
  }

  lemma {:induction false} UnderSize(name: string, ps: set<Path>)
    ensures |Under(name, ps)| == |ps|
    decreases |ps|
  {
    if ps != {} {
      var p :| p in ps;
      UnderSize(name, ps - {p});
      assert [name] + p !in Under(name, ps - {p}) by {
        forall q | q in ps - {p} ensures [name] + q != [name] + p {
          assert ([name] + q)[1..] == q && ([name] + p)[1..] == p;
        }
      }
      assert Under(name, ps) == Under(name, ps - {p}) + {[name] + p};
    }
  }

  lemma ThroughSize(name: string, v: Val, key: string)
    ensures |Through(name, v, key)| == (if name == key then 1 else 0) + |Occurrences(v, key)|
  {
    UnderSize(name, Occurrences(v, key));
    assert [name] !in Under(name, Occurrences(v, key)) by {
      forall p | p in Occurrences(v, key) ensures [name] + p != [name] {
        OccurrencesArePaths(v, key, p);
        assert |[name] + p| > 1;
      }
    }
  }

  lemma WithinUnion(v: Val, key: string, names: set<string>, name: string)
    requires v.Node? && names <= v.entries.Keys && name in v.entries
    ensures Within(v, key, names + {name}) == Within(v, key, names) + Through(name, v.entries[name], key)
  {
    var all, ps, qs := Within(v, key, names + {name}), Within(v, key, names), Through(name, v.entries[name], key);
    forall p | p in all ensures p in ps + qs {
      var n :| n in names + {name} && p in Through(n, v.entries[n], key);
    }
    forall p | p in ps ensures p in all {
      var n :| n in names && p in Through(n, v.entries[n], key);
      assert n in names + {name};
    }
    forall p | p in qs ensures p in all {
      assert name in names + {name};
    }
  }

  /** A path through an entry begins with the entry's name. */
  lemma ThroughBegins(v: Val, key: string, name: string, p: Path)
    requires p in Through(name, v, key)
    ensures p != [] && p[0] == name
  {
  }

  lemma WithinIsApart(v: Val, key: string, names: set<string>, name: string)
    requires v.Node? && names <= v.entries.Keys && name in v.entries && name !in names
    ensures Within(v, key, names) !! Through(name, v.entries[name], key)
  {
    forall p | p in Within(v, key, names) ensures p !in Through(name, v.entries[name], key) {
      var n :| n in names && p in Through(n, v.entries[n], key);
      ThroughBegins(v.entries[n], key, n, p);
      if p in Through(name, v.entries[name], key) {
        ThroughBegins(v.entries[name], key, name, p);
      }
    }
  }

  lemma UnionSize(ps: set<Path>, qs: set<Path>)
    requires ps !! qs
    ensures |ps + qs| == |ps| + |qs|
  {
  }

  lemma WithinAdds(v: Val, key: string, names: set<string>, name: string)
    requires v.Node? && names <= v.entries.Keys && name in v.entries && name !in names
    ensures Within(v, key, names + {name}) == Within(v, key, names) + Through(name, v.entries[name], key)
    ensures |Within(v, key, names + {name})|
            == |Within(v, key, names)| + (if name == key then 1 else 0) + |Occurrences(v.entries[name], key)|
  {
    WithinUnion(v, key, names, name);
    WithinIsApart(v, key, names, name);
    UnionSize(Within(v, key, names), Through(name, v.entries[name], key));
    ThroughSize(name, v.entries[name], key);
  }

  lemma WithinAll(v: Val, key: string)
    requires v.Node?
    ensures Within(v, key, v.entries.Keys) == Occurrences(v, key)
  {
  }

  // ---------------------------------------------------------------- dockPoseValue

  /** What the search has found so far: how many occurrences, and the last finite number among them. */
  datatype Found = Found(count: nat, result: Option<real>)

  /** The finite number at a path, if there is one. */
  ghost function NumberAt(v: Val, path: Path): Option<real> {
    var at := At(v, path);
    if at.Some? then Finitely(at.value) else None
  }

  ghost predicate NoNumbers(v: Val, ps: set<Path>) {
    forall p :: p in ps ==> NumberAt(v, p).None?
  }

  ghost predicate IsNumberOf(v: Val, ps: set<Path>, r: Option<real>) {
    r.Some? && exists p :: p in ps && NumberAt(v, p) == r
  }

  /** `now` is `was` after visiting the occurrences `ps` of `v`, in some order. */
  ghost predicate Visited(v: Val, ps: set<Path>, was: Found, now: Found) {
    && now.count == was.count + |ps|
    && ((now.result == was.result && NoNumbers(v, ps)) || IsNumberOf(v, ps, now.result))
  }

  lemma ThroughLooksUp(v: Val, key: string, name: string, p: Path)
    requires v.Node? && name in v.entries && p in Through(name, v.entries[name], key)
    ensures At(v, p).Some? && p != [] && p[0] == name
    ensures (p == [key] && name == key && At(v, p) == Some(v.entries[name]))
            || (p[1..] in Occurrences(v.entries[name], key) && At(v, p) == At(v.entries[name], p[1..]))
  {
    var child := v.entries[name];
    if p != [name] || name != key {
      var q :| q in Occurrences(child, key) && p == [name] + q;
      assert p[1..] == q;
      OccurrencesArePaths(child, key, q);
    } else {
      assert p[1..] == [];
    }
  }

  /** The entry itself. */
  function Counted(f: Found, name: string, key: string, v: Val): Found {
    if name != key then f
    else Found(f.count + 1, if Finitely(v).Some? then Finitely(v) else f.result)
  }

  lemma NumberInside(v: Val, key: string, name: string, r: Option<real>)
    requires v.Node? && name in v.entries && IsNumberOf(v.entries[name], Occurrences(v.entries[name], key), r)
    ensures IsNumberOf(v, Through(name, v.entries[name], key), r)
  {
    var child := v.entries[name];
    var q :| q in Occurrences(child, key) && NumberAt(child, q) == r;
    assert ([name] + q)[1..] == q && [name] + q in Through(name, child, key);
    assert NumberAt(v, [name] + q) == r;
  }

  lemma NumberHere(v: Val, key: string)
    requires v.Node? && key in v.entries && Finitely(v.entries[key]).Some?
    ensures IsNumberOf(v, Through(key, v.entries[key], key), Finitely(v.entries[key]))
  {
    assert [key] in Through(key, v.entries[key], key) && [key][1..] == [];
    assert At(v, [key]) == At(v.entries[key], []);
    assert NumberAt(v, [key]) == Finitely(v.entries[key]);
  }

  lemma NoNumberThrough(v: Val, key: string, name: string)
    requires v.Node? && name in v.entries && NoNumbers(v.entries[name], Occurrences(v.entries[name], key))
    requires name == key ==> Finitely(v.entries[name]).None?
    ensures NoNumbers(v, Through(name, v.entries[name], key))
  {
    forall p | p in Through(name, v.entries[name], key) ensures NumberAt(v, p).None? {
      ThroughLooksUp(v, key, name, p);
    }
  }

  lemma EntryVisited(v: Val, key: string, name: string, was: Found, now: Found)
    requires v.Node? && name in v.entries
    requires Visited(v.entries[name], Occurrences(v.entries[name], key), Counted(was, name, key, v.entries[name]), now)
    ensures Visited(v, Through(name, v.entries[name], key), was, now)
  {
    var child := v.entries[name];
    ThroughSize(name, child, key);
    if IsNumberOf(child, Occurrences(child, key), now.result) {
      NumberInside(v, key, name, now.result);
    } else if name == key && Finitely(child).Some? {
      NumberHere(v, key);
    } else {
      NoNumberThrough(v, key, name);
    }
  }

  lemma VisitsCompose(v: Val, ps: set<Path>, qs: set<Path>, was: Found, mid: Found, now: Found)
    requires ps !! qs && Visited(v, ps, was, mid) && Visited(v, qs, mid, now)
    ensures Visited(v, ps + qs, was, now)
  {
    if IsNumberOf(v, qs, now.result) {
      var p :| p in qs && NumberAt(v, p) == now.result;
      assert p in ps + qs;
    } else if IsNumberOf(v, ps, mid.result) {
      var p :| p in ps && NumberAt(v, p) == mid.result;
      assert p in ps + qs;
    }
  }

  /** The closure's loop body: one entry, and its value if that is a map. */
  method VisitEntry(v: Val, key: string, name: string, before: Found) returns (now: Found)
    requires v.Node? && name in v.entries
    ensures Visited(v, Through(name, v.entries[name], key), before, now)
    decreases v, 0
  {
    var raw := v.entries[name];
    now := Counted(before, name, key, raw);
    if raw.Node? {
      now := Visit(raw, key, now);
    }
    EntryVisited(v, key, name, before, now);
  }

  /** The recursive closure: the entries of a node in whatever order the map yields them. */
  method Visit(v: Val, key: string, was: Found) returns (now: Found)
    requires v.Node?
    ensures Visited(v, Occurrences(v, key), was, now)
    decreases v, 1
  {
    now := was;
    var rest := v.entries.Keys;
    ghost var done, seen := {}, {};
    NothingVisited(v, key, was);
    while rest != {}
      invariant rest == v.entries.Keys - done && done <= v.entries.Keys
      invariant seen == Within(v, key, done)
      invariant Visited(v, seen, was, now)
      decreases |rest|
    {
      var name :| name in rest;
      ghost var before := now;
      now := VisitEntry(v, key, name, now);
      Extend(v, key, done, name, was, before, now);
      rest, done := rest - {name}, done + {name};
      seen := Within(v, key, done);
    }
    assert done == v.entries.Keys;
    WithinAll(v, key);
  }

  lemma NothingVisited(v: Val, key: string, f: Found)
    requires v.Node?
    ensures Within(v, key, {}) == {} && Visited(v, {}, f, f)
  {
  }

  lemma Extend(v: Val, key: string, done: set<string>, name: string, was: Found, before: Found, now: Found)
    requires v.Node? && done <= v.entries.Keys && name in v.entries && name !in done
    requires Visited(v, Within(v, key, done), was, before)
    requires Visited(v, Through(name, v.entries[name], key), before, now)
    ensures Visited(v, Within(v, key, done + {name}), was, now)
  {
    var ps, qs := Within(v, key, done), Through(name, v.entries[name], key);
    WithinAdds(v, key, done, name);
    forall p | p in ps ensures p !in qs {
      var n :| n in done && p in Through(n, v.entries[n], key);
      ThroughLooksUp(v, key, n, p);
      if p in qs {
        ThroughLooksUp(v, key, name, p);
      }
    }
    VisitsCompose(v, ps, qs, was, before, now);
  }

  lemma SingletonOf(ps: set<Path>)
    requires |ps| == 1
    ensures exists p :: ps == {p}
  {
    var p :| p in ps;
    assert |ps - {p}| == 0;
    assert ps == {p};
  }

  /**
   Whatever order the maps are visited in, the answer is the finite number at the key's only occurrence;
   there is one exactly when the key occurs once, with a finite number.
   */
  method DockPoseValue(data: Val, key: string) returns (r: Option<real>)
    requires data.Node?
    ensures forall p :: Occurrences(data, key) == {p} ==> r == NumberAt(data, p)
    ensures r.Some? <==> exists p :: Occurrences(data, key) == {p} && NumberAt(data, p).Some?
  {
    var found := Visit(data, key, Found(0, None));
    if found.count != 1 {
      return None;
    }
    SingletonOf(Occurrences(data, key));
    return found.result;
  }

  // ---------------------------------------------------------------- extractYAMLFloat

  /** The plain number at a path; a path to anything else reads as 0. */
  ghost function PlainAt(v: Val, path: Path): Float {
    var at := At(v, path);
    if at.Some? && Plainly(at.value).Some? then Plainly(at.value).value else Finite(0.0)
  }

  /** `r` is what the search may answer for occurrences `ps`: 0 for none, the plain number for a single one. */
  ghost predicate Answers(v: Val, ps: set<Path>, r: Float) {
    && (ps == {} ==> r == Finite(0.0))
    && (forall p :: ps == {p} ==> r == PlainAt(v, p))
  }

  lemma NoneThrough(v: Val, key: string, name: string, done: set<string>)
    requires v.Node? && done <= v.entries.Keys && name in v.entries && name !in done
    ensures Within(v, key, done) <= Occurrences(v, key) && Through(name, v.entries[name], key) <= Occurrences(v, key)
    ensures Within(v, key, done) !! Through(name, v.entries[name], key)
  {
    var ps, qs := Within(v, key, done), Through(name, v.entries[name], key);
    forall p | p in ps ensures p !in qs {
      var n :| n in done && p in Through(n, v.entries[n], key);
      ThroughLooksUp(v, key, n, p);
      if p in qs {
        ThroughLooksUp(v, key, name, p);
      }
    }
  }

  /** The entry is the number looked for. */
  lemma FoundHere(v: Val, key: string, r: Float)
    requires v.Node? && key in v.entries && Plainly(v.entries[key]) == Some(r)
    ensures Answers(v, Occurrences(v, key), r)
  {
    assert [key] in Through(key, v.entries[key], key) && [key] in Occurrences(v, key);
    assert [key][1..] == [] && At(v, [key]) == Some(v.entries[key]);
    forall p | Occurrences(v, key) == {p} ensures p == [key] {
    }
  }

  /** A nested map answered with something other than 0. */
  lemma FoundInside(v: Val, key: string, name: string, r: Float)
    requires v.Node? && name in v.entries && v.entries[name].Node?
    requires Answers(v.entries[name], Occurrences(v.entries[name], key), r) && r != Finite(0.0)
    ensures Answers(v, Occurrences(v, key), r)
  {
    var child := v.entries[name];
    var inner, all := Occurrences(child, key), Occurrences(v, key);
    var q :| q in inner;
    OccurrencesArePaths(child, key, q);
    assert [name] + q in Through(name, child, key) && [name] + q in all;
    forall p | all == {p} ensures r == PlainAt(v, p) {
      assert p == [name] + q && p[1..] == q;
      forall q' | q' in inner ensures q' == q {
        assert [name] + q' in Through(name, child, key) && [name] + q' in all;
        assert ([name] + q')[1..] == q';
      }
      assert inner == {q};
    }
  }

  /** Nothing but 0 through the entries seen so far: at most one occurrence, and it is not a number other than 0. */
  ghost predicate Dull(v: Val, ps: set<Path>) {
    forall p :: ps == {p} ==> PlainAt(v, p) == Finite(0.0)
  }

  lemma DullGrows(v: Val, key: string, done: set<string>, name: string)
    requires v.Node? && done <= v.entries.Keys && name in v.entries && name !in done
    requires Dull(v, Within(v, key, done))
    requires name == key ==> Plainly(v.entries[name]).None?
    requires Dull(v.entries[name], Occurrences(v.entries[name], key))
    ensures Dull(v, Within(v, key, done + {name}))
  {
    var child := v.entries[name];
    var ps, qs := Within(v, key, done), Through(name, child, key);
    WithinAdds(v, key, done, name);
    NoneThrough(v, key, name, done);
    forall p | ps + qs == {p} ensures PlainAt(v, p) == Finite(0.0) {
      if p in ps {
        assert ps == {p};
      } else {
        assert p in ps + qs;
        ThroughLooksUp(v, key, name, p);
        if p != [key] || name != key {
          assert p[1..] in Occurrences(child, key);
          forall q | q in Occurrences(child, key) ensures q == p[1..] {
            assert [name] + q in qs && ([name] + q)[1..] == q;
          }
          assert Occurrences(child, key) == {p[1..]};
        }
      }
    }
  }

  /** One entry: its own number, or a nested answer other than 0; None lets the search go on. */
  method ExtractEntry(v: Val, key: string, name: string) returns (r: Option<Float>)
    requires v.Node? && name in v.entries
    ensures r.Some? ==> Answers(v, Occurrences(v, key), r.value)
    ensures r.None? ==> (name == key ==> Plainly(v.entries[name]).None?)
                        && Dull(v.entries[name], Occurrences(v.entries[name], key))
    decreases v, 0
  {
    var raw := v.entries[name];
    if name == key && Plainly(raw).Some? {
      FoundHere(v, key, Plainly(raw).value);
      return Plainly(raw);
    }
    if raw.Node? {
      var inner := ExtractFloat(raw, key);
      if inner != Finite(0.0) {
        FoundInside(v, key, name, inner);
        return Some(inner);
      }
    }
    return None;
  }

  /** With at most one occurrence of the key the answer does not depend on the order of the maps. */
  method ExtractFloat(v: Val, key: string) returns (r: Float)
    requires v.Node?
    ensures Answers(v, Occurrences(v, key), r)
    decreases v, 1
  {
    var rest := v.entries.Keys;
    ghost var done: set<string> := {};
    assert Within(v, key, {}) == {};
    while rest != {}
      invariant rest == v.entries.Keys - done && done <= v.entries.Keys
      invariant Dull(v, Within(v, key, done))
      decreases |rest|
    {
      var name :| name in rest;
      var found := ExtractEntry(v, key, name);
      if found.Some? {
        return found.value;
      }
      DullGrows(v, key, done, name);
      rest, done := rest - {name}, done + {name};
    }
    assert done == v.entries.Keys;
    WithinAll(v, key);
    return Finite(0.0);
  }

  /**
   Both searches in sequence: where the strict one finds a value held as int or float64, the other
   returns it too; an int64 or uint64 reads as 0 there.
   */
  method Compare(data: Val, key: string) returns (strict: Option<real>, plain: Float)
    requires data.Node?
    ensures forall p :: Occurrences(data, key) == {p} && At(data, p).Some? ==>
                          match At(data, p).value
                          case Int(i) => strict == Some(i as real) && plain == Finite(i as real)
                          case Number(f) => plain == f && strict == (if f.Finite? then Some(f.x) else None)
                          case Int64(l) => strict == Some(l as real) && plain == Finite(0.0)
                          case Uint64(u) => strict == Some(u as real) && plain == Finite(0.0)
                          case _ => strict == None && plain == Finite(0.0)
  {
    strict := DockPoseValue(data, key);
    plain := ExtractFloat(data, key);
  }
}
