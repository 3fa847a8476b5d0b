/**
 Paths as fs/paths.c splits them and fs/krealpath.c normalises them, with the resolution they
 should agree with: a walk in which ".." leads to the parent and the root is its own parent.
 */
module PathSpec {

  const MAX_PATH := 256

  /** Position of the first '/', or the length. */
  function FirstSlash(t: string): (n: nat)
    ensures n <= |t| && (n < |t| ==> t[n] == '/') && '/' !in t[..n]
  {
    if t == [] || t[0] == '/' then 0 else
      var n := FirstSlash(t[1..]);
      assert t[..1 + n] == [t[0]] + t[1..][..n];
      1 + n
  }

  /** The components in order; a '/' at the end opens no further one. */
  function Split(t: string): (names: seq<string>)
    ensures forall c | c in names :: '/' !in c
    ensures t != [] ==> names != []
  {
    if t == [] then []
    else
      var n := FirstSlash(t);
      if n == |t| then assert t[..n] == t; [t] else [t[..n]] + Split(t[n + 1..])
  }

  /** Components with a '/' between neighbours. */
  function Join(names: seq<string>): string
  {
    if names == [] then ""
    else if |names| == 1 then names[0]
    else names[0] + "/" + Join(names[1..])
  }

  predicate EndsInSlash(t: string)
  {
    t != [] && t[|t| - 1] == '/'
  }

  /** Splitting loses nothing but one '/' at the end. */
  lemma {:induction false} SplitJoin(t: string)
    ensures t == Join(Split(t)) + if EndsInSlash(t) then "/" else ""
    decreases |t|
  {
    hide FirstSlash;
    var n := FirstSlash(t);
    if t != [] && n < |t| {
      var name, rest := t[..n], t[n + 1..];
      SplitJoin(rest);
      assert t == name + "/" + rest;
      assert Split(t) == [name] + Split(rest);
      JoinHead(name, Split(rest));
      assert rest != [] ==> EndsInSlash(t) == EndsInSlash(rest);
      Regrouped(name, Join(Split(rest)), if EndsInSlash(rest) then "/" else "");
    }
  }

  lemma Regrouped(name: string, rest: string, tail: string)
    ensures name + "/" + (rest + tail) == name + "/" + rest + tail
  {
  }

  lemma JoinHead(name: string, names: seq<string>)
    ensures Join([name] + names) == if names == [] then name else name + "/" + Join(names)
  {
  }

  lemma {:induction false} FirstSlashAt(name: string, rest: string)
    requires '/' !in name
    ensures FirstSlash(name + "/" + rest) == |name|
    ensures FirstSlash(name) == |name|
  {
    if name != [] {
      FirstSlashAt(name[1..], rest);
      assert (name + "/" + rest)[1..] == name[1..] + "/" + rest;
      assert name[0] in name && forall c | c in name[1..] :: c in name;
    }
  }

  /** A leading component is split off. */
  lemma SplitHead(name: string, rest: string)
    requires '/' !in name
    ensures Split(name + "/" + rest) == [name] + Split(rest)
  {
    var t := name + "/" + rest;
    FirstSlashAt(name, rest);
    assert t[..|name|] == name && t[|name| + 1..] == rest;
  }

  /** Components that can be told apart again after joining. */
  predicate Proper(names: seq<string>)
  {
    (forall c | c in names :: '/' !in c) && (names != [] ==> names[|names| - 1] != "")
  }

  lemma {:induction false} JoinSplit(names: seq<string>)
    requires Proper(names)
    ensures Split(Join(names)) == names
  {
    if |names| == 1 {
      assert names[0] in names;
      FirstSlashAt(names[0], "");
    } else if |names| > 1 {
      assert names[0] in names && forall c | c in names[1..] :: c in names;
      JoinSplit(names[1..]);
      SplitHead(names[0], Join(names[1..]));
    }
  }

  // ---------------------------------------------------------------- walking

  function Step(place: seq<string>, name: string): seq<string>
  {
    if name == "." then place
    else if name == ".." then (if place == [] then [] else place[..|place| - 1])
    else place + [name]
  }

  /** The place reached by following names, from the root down. */
  function Walk(place: seq<string>, names: seq<string>): seq<string>
    decreases |names|
  {
    if names == [] then place else Walk(Step(place, names[0]), names[1..])
  }

  lemma {:induction false} WalkSnoc(place: seq<string>, names: seq<string>, name: string)
    ensures Walk(place, names + [name]) == Step(Walk(place, names), name)
    decreases |names|
  {
    if names != [] {
      WalkSnoc(Step(place, names[0]), names[1..], name);
      assert (names + [name])[1..] == names[1..] + [name];
    }
  }

  lemma {:induction false} WalkConcat(place: seq<string>, a: seq<string>, b: seq<string>)
    ensures Walk(place, a + b) == Walk(Walk(place, a), b)
    decreases |a|
  {
    if a == [] {
      assert a + b == b;
    } else {
      WalkConcat(Step(place, a[0]), a[1..], b);
      assert (a + b)[1..] == a[1..] + b;
    }
  }

  /** Somewhere ".." is followed at the root. */
  predicate Climbs(place: seq<string>, names: seq<string>)
    decreases |names|
  {
    names != [] && ((names[0] == ".." && place == []) || Climbs(Step(place, names[0]), names[1..]))
  }

  predicate Ordinary(name: string)
  {
    name != "." && name != ".."
  }

  /** Only ordinary components are left in a place. */
  lemma {:induction false} WalkOrdinary(place: seq<string>, names: seq<string>)
    requires forall c | c in place :: Ordinary(c)
    ensures forall c | c in Walk(place, names) :: Ordinary(c) && (c in place || c in names)
    decreases |names|
  {
    if names != [] {
      WalkOrdinary(Step(place, names[0]), names[1..]);
    }
  }

  /** Ordinary components are followed as they are. */
  lemma {:induction false} WalkAppends(place: seq<string>, names: seq<string>)
    requires forall c | c in names :: Ordinary(c)
    ensures Walk(place, names) == place + names && !Climbs(place, names)
    decreases |names|
  {
    if names != [] {
      assert names[0] in names;
      WalkAppends(place + [names[0]], names[1..]);
      assert place + [names[0]] + names[1..] == place + names;
    }
  }

  lemma {:induction false} JoinAppend(a: seq<string>, b: seq<string>)
    ensures |Join(a + b)| == |Join(a)| + |Join(b)| + if a == [] || b == [] then 0 else 1
    decreases |a|
  {
    if a == [] {
      assert a + b == b;
    } else {
      assert (a + b)[1..] == a[1..] + b;
      JoinAppend(a[1..], b);
    }
  }

  /** Normalising never makes a path longer. */
  lemma {:induction false} WalkShorter(place: seq<string>, names: seq<string>)
    ensures |Join(Walk(place, names))| <= |Join(place + names)|
    decreases |names|
  {
    if names == [] {
      assert place + names == place;
    } else {
      var next, rest := Step(place, names[0]), names[1..];
      WalkShorter(next, rest);
      StepShorter(place, names[0]);
      hide Join, Step;
      JoinAppend(next, rest);
      JoinAppend(place + [names[0]], rest);
      assert place + [names[0]] + rest == place + names;
    }
  }

  lemma StepShorter(place: seq<string>, name: string)
    ensures |Join(Step(place, name))| <= |Join(place + [name])|
    ensures Step(place, name) == [] || |Step(place, name)| <= |place + [name]|
  {
    JoinAppend(place, [name]);
    if place != [] {
      var n := |place| - 1;
      assert place == place[..n] + [place[n]];
      JoinAppend(place[..n], [place[n]]);
    }
  }

  // ---------------------------------------------------------------- krealpath on absolute text

  /** The component stack assembled; nothing left means the root. */
  function Assemble(stack: seq<string>): string
  {
    if Join(stack) == "" then "/" else Join(stack)
  }

  /** What krealpath makes of the text it has built, whose first component is the root's "". */
  function Normal(text: string): string
  {
    Assemble(Walk([], Split(text)))
  }

  predicate Absolute(text: string)
  {
    text != [] && text[0] == '/'
  }

  /** The components after the leading '/'. */
  function Names(text: string): seq<string>
    requires Absolute(text)
  {
    Split(text[1..])
  }

  /** The root's "" sits at the bottom of the stack until a ".." removes it. */
  lemma {:induction false} RootMarker(place: seq<string>, names: seq<string>)
    ensures Walk([""] + place, names) == if Climbs(place, names) then Walk(place, names) else [""] + Walk(place, names)
    decreases |names|
  {
    if names != [] {
      var name, next := names[0], Step(place, names[0]);
      if name == ".." && place == [] {
        assert [""] + place == [""];
      } else {
        assert Step([""] + place, name) == [""] + next;
        RootMarker(next, names[1..]);
      }
    }
  }

  lemma AbsoluteSplit(text: string)
    requires Absolute(text)
    ensures Split(text) == [""] + Names(text)
  {
  }

  /** The path of a place. */
  function PathOf(place: seq<string>): string
  {
    "/" + Join(place)
  }

  ghost predicate NoEmptyName(names: seq<string>)
  {
    forall c | c in names :: c != ""
  }

  lemma JoinEmpty(names: seq<string>)
    requires NoEmptyName(names)
    ensures Join(names) == "" <==> names == []
    ensures Join([""] + names) == if names == [] then "" else PathOf(names)
    ensures names != [] ==> names[0] != "" && Join(names)[0] == names[0][0]
  {
    assert ([""] + names)[1..] == names;
    assert names != [] ==> names[0] in names;
  }

  /**
   Without "//", the result is the path of the place the text leads to exactly when no ".." is
   followed at the root, or the walk ends there; otherwise it comes out relative.
   */
  lemma NormalExact(text: string)
    requires Absolute(text) && NoEmptyName(Names(text))
    ensures var place := Walk([], Names(text));
            && (Normal(text) == PathOf(place) <==> !Climbs([], Names(text)) || place == [])
            && (Absolute(Normal(text)) <==> Normal(text) == PathOf(place))
            && (!Absolute(Normal(text)) ==> Normal(text) == Join(place))
  {
    var names := Names(text);
    var place := Walk([], names);
    AbsoluteSplit(text);
    assert Step([], "") == [""];
    assert Walk([], [""] + names) == Walk([""], names) by {
      assert ([""] + names)[1..] == names;
    }
    RootMarker([], names);
    assert [""] + [] == [""];
    WalkOrdinary([], names);
    JoinEmpty(place);
    assert |PathOf(place)| == |Join(place)| + 1;
    assert place != [] ==> place[0] in place && place[0] in names && '/' !in place[0];
    assert place != [] ==> place[0] != "" && place[0][0] in place[0];
  }

  /** ".." at the root takes the leading '/' away. */
  lemma ClimbingWitness()
    ensures Normal("/../b") == "b" && Walk([], Names("/../b")) == ["b"]
  {
    SplitHead("..", "b");
    assert "/../b"[1..] == ".." + "/" + "b";
    FirstSlashAt("b", "");
    assert Names("/../b") == ["..", "b"];
    AbsoluteSplit("/../b");
    assert Split("/../b") == ["", "..", "b"];
    assert ["", "..", "b"][1..] == ["..", "b"] && ["..", "b"][1..] == ["b"];
    assert Walk([""], ["..", "b"]) == Walk([], ["b"]) == ["b"];
  }

  /** The path of a place splits into its names and leads back to the place, which nothing shortens. */
  lemma PathOfPlace(place: seq<string>)
    requires forall c | c in place :: Ordinary(c) && c != "" && '/' !in c
    ensures Absolute(PathOf(place)) && Names(PathOf(place)) == place
    ensures Walk([], Names(PathOf(place))) == place && Normal(PathOf(place)) == PathOf(place)
  {
    assert PathOf(place)[1..] == Join(place);
    assert place != [] ==> place[|place| - 1] in place;
    JoinSplit(place);
    WalkAppends([], place);
    NormalExact(PathOf(place));
  }

  lemma SplitPath(names: seq<string>)
    requires Proper(names)
    ensures Split(PathOf(names)) == [""] + names
  {
    assert PathOf(names)[1..] == Join(names);
    JoinSplit(names);
    AbsoluteSplit(PathOf(names));
  }

  /** ".." takes back the component before it, wherever the two stand. */
  lemma ParentCancels(a: seq<string>, x: string, b: seq<string>)
    requires Proper(a + b) && Ordinary(x) && '/' !in x
    ensures Normal(PathOf(a + [x, ".."] + b)) == Normal(PathOf(a + b))
  {
    hide Walk, Split, Join;
    var there := Walk([], [""] + a);
    Unsplit(a, [x, ".."], b);
    assert Walk(there, [x, ".."]) == there by {
      assert [x, ".."] == [x] + [".."];
      WalkTwo(there, x, "..");
      assert (there + [x])[..|there|] == there;
    }
  }

  /** "." says nothing. */
  lemma DotIgnored(a: seq<string>, b: seq<string>)
    requires Proper(a + b)
    ensures Normal(PathOf(a + ["."] + b)) == Normal(PathOf(a + b))
  {
    hide Walk, Split, Join;
    var there := Walk([], [""] + a);
    Unsplit(a, ["."], b);
    WalkOne(there, ".");
  }

  /** Where the components a, then mid, then b lead. */
  lemma Unsplit(a: seq<string>, mid: seq<string>, b: seq<string>)
    requires Proper(a + b) && (forall c | c in mid :: '/' !in c) && mid != [] && mid[|mid| - 1] != ""
    ensures Normal(PathOf(a + mid + b)) == Assemble(Walk(Walk(Walk([], [""] + a), mid), b))
    ensures Normal(PathOf(a + b)) == Assemble(Walk(Walk([], [""] + a), b))
  {
    hide Walk, Split, Join, Proper, PathOf, Assemble;
    ProperAround(a, mid, b);
    SplitPath(a + mid + b);
    SplitPath(a + b);
    WalkParts([""], a, mid, b);
  }

  lemma WalkParts(root: seq<string>, a: seq<string>, mid: seq<string>, b: seq<string>)
    ensures Walk([], root + (a + mid + b)) == Walk(Walk(Walk([], root + a), mid), b)
    ensures Walk([], root + (a + b)) == Walk(Walk([], root + a), b)
  {
    hide Walk;
    assert root + (a + mid + b) == root + a + mid + b;
    assert root + (a + b) == root + a + b;
    WalkConcat([], root + a + mid, b);
    WalkConcat([], root + a, mid);
    WalkConcat([], root + a, b);
  }

  lemma ProperAround(a: seq<string>, mid: seq<string>, b: seq<string>)
    requires Proper(a + b) && (forall c | c in mid :: '/' !in c) && mid != [] && mid[|mid| - 1] != ""
    ensures Proper(a + mid + b)
  {
    var all := a + mid + b;
    forall c | c in all
      ensures '/' !in c
    {
      assert c in a + b || c in mid;
    }
    if b != [] {
      assert all[|all| - 1] == b[|b| - 1] == (a + b)[|a + b| - 1];
    } else {
      assert all[|all| - 1] == mid[|mid| - 1];
    }
  }

  lemma WalkOne(place: seq<string>, x: string)
    ensures Walk(place, [x]) == Step(place, x)
  {
    assert [x][1..] == [];
  }

  lemma WalkTwo(place: seq<string>, x: string, y: string)
    ensures Walk(place, [x, y]) == Step(Step(place, x), y)
  {
    assert [x, y][1..] == [y];
    WalkOne(Step(place, x), y);
  }

  /** ".." at the root takes the leading '/' from what follows. */
  lemma ClimbingExact(b: seq<string>)
    requires b != [] && forall c | c in b :: Ordinary(c) && c != "" && '/' !in c
    ensures Normal(PathOf([".."] + b)) == Join(b)
  {
    hide Walk, Split, Join, PathOf;
    var last := b[|b| - 1];
    assert last in b;
    ProperAround([], [".."], b);
    assert [] + [".."] + b == [".."] + b && [] + b == b;
    SplitPath([".."] + b);
    assert [""] + ([".."] + b) == ["", ".."] + b;
    WalkConcat([], ["", ".."], b);
    WalkTwo([], "", "..");
    WalkAppends([], b);
    JoinEmpty(b);
  }

  /** An absolute result has no "." or "..", leads where the text leads, and is left alone a second time. */
  lemma NormalMeaning(text: string)
    requires Absolute(text) && NoEmptyName(Names(text)) && Absolute(Normal(text))
    ensures var r := Normal(text);
            && (forall c | c in Names(r) :: Ordinary(c) && c != "")
            && Walk([], Names(r)) == Walk([], Names(text))
            && Normal(r) == r && |r| <= |text|
  {
    hide Normal, Walk, Join, Split, Climbs;
    var names := Names(text);
    var place := Walk([], names);
    NormalExact(text);
    WalkOrdinary([], names);
    PathOfPlace(place);
    WalkShorter([], names);
    assert [] + names == names;
    SplitJoin(text[1..]);
  }
}
