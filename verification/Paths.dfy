/**
 get_next_path and push_front of fs/paths.c on their buffers, and krealpath of fs/krealpath.c.
 A buffer holds a C string followed by zero bytes.
 */
module Paths {
  import opened PathSpec

  // ---------------------------------------------------------------- buffers

  predicate CString(t: string)
  {
    forall k | 0 <= k < |t| :: t[k] != '\0'
  }

  /** From start on, the buffer holds t and nothing but zeros behind it. */
  ghost predicate Holds(b: seq<char>, start: nat, t: string)
  {
    && start + |t| < |b| && CString(t)
    && forall k | start <= k < |b| :: b[k] == if k < start + |t| then t[k - start] else '\0'
  }

  /** The C string at position j of the buffer is name. */
  ghost predicate NamedAt(b: seq<char>, j: nat, name: string)
  {
    && j + |name| < |b| && CString(name)
    && forall k | j <= k <= j + |name| :: b[k] == if k < j + |name| then name[k - j] else '\0'
  }

  /** How many characters of the buffer the splitting loop looks at. */
  function Extent(t: string): nat
    decreases |t|
  {
    var n := FirstSlash(t);
    if t == [] then 1
    else if n < |t| then n + 1 + Extent(t[n + 1..])
    else if t == "." || t == ".." then |t| + 2
    else |t| + 3
  }

  /** One more than the text behind a last '/', two more behind "." or "..", three more behind any other name. */
  lemma {:induction false} ExtentExact(t: string)
    ensures Extent(t) == |t| + if t == [] || EndsInSlash(t) then 1
                               else if Split(t)[|Split(t)| - 1] == "." || Split(t)[|Split(t)| - 1] == ".." then 2
                               else 3
    decreases |t|
  {
    hide FirstSlash, Split;
    var n := FirstSlash(t);
    if t != [] && n < |t| {
      var rest := t[n + 1..];
      ExtentExact(rest);
      LastName(t, n);
      assert rest != [] ==> EndsInSlash(t) == EndsInSlash(rest);
    } else if t != [] {
      LastName(t, n);
    }
  }

  /** The last component is that of the text behind the first '/', if there is any. */
  lemma LastName(t: string, n: nat)
    requires t != [] && n == FirstSlash(t)
    ensures if n == |t| then Split(t) == [t] && !EndsInSlash(t)
            else t[n + 1..] != [] ==> Split(t)[|Split(t)| - 1] == Split(t[n + 1..])[|Split(t[n + 1..])| - 1]
    ensures n < |t| && t[n + 1..] == [] ==> EndsInSlash(t)
  {
    if n < |t| {
      assert Split(t) == [t[..n]] + Split(t[n + 1..]);
    } else {
      assert t[..n] == t && t[|t| - 1] in t;
    }
  }

  /** The unread text after the first component. */
  function Rest(t: string): string
  {
    var n := FirstSlash(t);
    if n < |t| then t[n + 1..] else ""
  }

  lemma SplitStep(t: string)
    requires t != []
    ensures Split(t) == [t[..FirstSlash(t)]] + Split(Rest(t))
  {
    assert t[..|t|] == t;
  }

  /** Outside: the call would look past the buffer. */
  datatype Next = Component(next: nat) | NoMore | Outside

  /** Where the next call starts, and what is left for it: past the buffer only when nothing is. */
  ghost predicate Resumes(b: seq<char>, start: nat, t: string)
  {
    if start < |b| then Holds(b, start, t) else t == []
  }

  /** get_next_path; the caller's start++ is included in next. */
  method GetNextPath(path: array<char>, start: nat, ghost t: string) returns (r: Next)
    requires path.Length == MAX_PATH && Resumes(path[..], start, t)
    modifies path
    ensures r.Outside? <==> start >= MAX_PATH
    ensures r.NoMore? <==> start < MAX_PATH && t == []
    ensures !r.Component? ==> path[..] == old(path[..])
    ensures r.Component? ==> var name := t[..FirstSlash(t)]; NamedAt(path[..], start, name) && start + |name| < r.next
    ensures r.Component? ==> Resumes(path[..], r.next, Rest(t)) && r.next + Extent(Rest(t)) == start + Extent(t)
    ensures start < MAX_PATH ==> path[..start] == old(path[..start])
  {
    hide FirstSlash, Extent, Rest, NamedAt;
    if start >= MAX_PATH {
      return Outside;
    }
    ghost var b := path[..];
    ghost var n := FirstSlash(t);
    HeldChars(b, start, t);
    if path[start] == '.' && path[start + 1] == '\0' {
      assert t == ".";
      DotsAreLast();
      LastComponent(b, start, t, start + 2);
      return Component(start + 2);
    }
    if path[start] == '.' && path[start + 1] == '.' && path[start + 2] == '\0' {
      assert t == "..";
      DotsAreLast();
      LastComponent(b, start, t, start + 3);
      return Component(start + 3);
    }
    var i := start;
    while i < MAX_PATH
      invariant start <= i <= MAX_PATH && path[..] == b
      invariant i <= start + n || n == |t|
    {
      if path[i] == '/' {
        SlashFound(b, start, t, i);
        ExtentStep(t);
        path[i] := '\0';
        assert path[..] == b[i := '\0'];
        return Component(i + 1);
      }
      i := i + 1;
    }
    assert n == |t|;
    if path[start] != '\0' {
      i := start;
      while path[i] != '\0'
        invariant start <= i <= start + |t| && path[..] == b
        decreases MAX_PATH - i
      {
        i := i + 1;
      }
      assert i == start + |t|;
      LastComponent(b, start, t, i + 2);
      return Component(i + 2);
    }
    return NoMore;
  }

  lemma ExtentStep(t: string)
    requires FirstSlash(t) < |t|
    ensures Extent(t) == FirstSlash(t) + 1 + Extent(Rest(t))
  {
  }

  lemma DotsAreLast()
    ensures FirstSlash(".") == 1 && FirstSlash("..") == 2
  {
  }

  /** Behind the last component the buffer is empty, wherever the next call starts. */
  lemma LastComponent(b: seq<char>, start: nat, t: string, next: nat)
    requires Holds(b, start, t) && FirstSlash(t) == |t| && t != []
    requires next == start + |t| + (if t == "." || t == ".." then 1 else 2)
    ensures NamedAt(b, start, t[..FirstSlash(t)]) && Resumes(b, next, Rest(t)) && next + Extent(Rest(t)) == start + Extent(t)
  {
  }

  /** Where the first '/' of the text shows in the buffer. */
  lemma HeldChars(b: seq<char>, start: nat, t: string)
    requires Holds(b, start, t)
    ensures FirstSlash(t) < |t| ==> b[start + FirstSlash(t)] == '/'
    ensures forall k | start <= k < start + FirstSlash(t) :: b[k] != '/'
    ensures FirstSlash(t) == |t| ==> forall k | start <= k < |b| :: b[k] != '/'
  {
  }

  /** Overwriting the first '/' ends the component and leaves the rest in place. */
  lemma SlashFound(b: seq<char>, start: nat, t: string, i: nat)
    requires Holds(b, start, t) && start <= i < |b| && b[i] == '/'
    requires i <= start + FirstSlash(t) || FirstSlash(t) == |t|
    ensures i == start + FirstSlash(t) && FirstSlash(t) < |t|
    ensures NamedAt(b[i := '\0'], start, t[..FirstSlash(t)]) && Holds(b[i := '\0'], i + 1, Rest(t))
  {
    hide FirstSlash;
    HeldChars(b, start, t);
  }

  /** The pointers of ptr_tab: the strings they point at are the components, in the final buffer. */
  ghost predicate Pointed(b: seq<char>, tab: seq<nat>, names: seq<string>)
  {
    |tab| == |names| && forall k | 0 <= k < |tab| :: NamedAt(b, tab[k], names[k])
  }

  /** The loop of krealpath that fills ptr_tab; not ok when it would look past the buffer. */
  method Components(path: array<char>, ghost text: string) returns (ok: bool, tab: seq<nat>)
    requires path.Length == MAX_PATH && Holds(path[..], 0, text)
    modifies path
    ensures ok <==> Extent(text) <= MAX_PATH
    ensures ok ==> Pointed(path[..], tab, Split(text))
  {
    hide FirstSlash, Split, Rest, Extent, NamedAt;
    ghost var t, names := text, [];
    assert names + Split(t) == Split(text);
    var start: nat := 0;
    tab := [];
    while true
      invariant Resumes(path[..], start, t) && start + Extent(t) == Extent(text)
      invariant names + Split(t) == Split(text)
      invariant start <= MAX_PATH ==> Pointed(path[..start], tab, names)
      decreases |t|
    {
      var r := GetNextPath(path, start, t);
      if !r.Component? {
        SplitNothing();
        ok := r.NoMore?;
        if ok {
          StillPointed(path[..start], path[..], tab, names);
        }
        return;
      }
      ghost var name := t[..FirstSlash(t)];
      SplitStep(t);
      if r.next <= MAX_PATH {
        StillPointed(path[..start], path[..r.next], tab, names);
        PointsAt(path[..], r.next, start, name);
      }
      tab, names := tab + [start], names + [name];
      RestShorter(t);
      t, start := Rest(t), r.next;
    }
  }

  lemma SplitNothing()
    ensures Split("") == [] && Extent("") == 1
  {
  }

  lemma RestShorter(t: string)
    requires t != []
    ensures |Rest(t)| < |t|
  {
  }

  lemma StillPointed(b: seq<char>, b': seq<char>, tab: seq<nat>, names: seq<string>)
    requires Pointed(b, tab, names) && |b| <= |b'| && forall k | 0 <= k < |b| :: b'[k] == b[k]
    ensures Pointed(b', tab, names)
  {
  }

  lemma PointsAt(b: seq<char>, next: nat, j: nat, name: string)
    requires NamedAt(b, j, name) && j + |name| < next <= |b|
    ensures NamedAt(b[..next], j, name)
  {
  }

  /** Overrun: the code would read or write past one of its buffers. */
  datatype Result = Ok(path: string) | NameTooLong | Invalid | Overrun

  /** push_front on strings: 256 characters pass its test and leave no room for the terminator. */
  function Pushed(dst: string, src: string): Result
  {
    if |dst| + |src| > MAX_PATH then Invalid
    else if |dst| + |src| == MAX_PATH then Overrun
    else Ok(src + dst)
  }

  /** push_front: src and dst are copied into a buffer of its own, and that back to dst up to a terminator. */
  method PushFront(dst: array<char>, src: string, ghost d: string) returns (r: Result)
    requires dst.Length == MAX_PATH && NamedAt(dst[..], 0, d) && CString(src)
    modifies dst
    ensures r == Pushed(d, src) && (r.Ok? ==> NamedAt(dst[..], 0, r.path)) && (r.Invalid? ==> dst[..] == old(dst[..]))
    ensures |src| + |d| < 256 ==> r == Ok(src + d)
    ensures (r.Overrun? <==> |src| + |d| == 256) && (r.Invalid? <==> |src| + |d| > 256)
  {
    var text := StringAt(dst, 0, d);
    if |text| + |src| > MAX_PATH {
      return Invalid;
    }
    var both := src + text;
    var res := new char[MAX_PATH](_ => '\0');
    for i := 0 to |src|
      invariant forall k | 0 <= k < MAX_PATH :: res[k] == if k < i then both[k] else '\0'
      invariant dst[..] == old(dst[..])
    {
      res[i] := src[i];
    }
    for i := 0 to |text|
      invariant forall k | 0 <= k < MAX_PATH :: res[k] == if k < |src| + i then both[k] else '\0'
      invariant dst[..] == old(dst[..])
    {
      res[|src| + i] := text[i];
    }
    var i := 0;
    while i < MAX_PATH && res[i] != '\0'
      invariant 0 <= i <= |both| && forall k | 0 <= k < i :: dst[k] == both[k]
      invariant forall k | 0 <= k < MAX_PATH :: res[k] == if k < |both| then both[k] else '\0'
    {
      dst[i] := res[i];
      i := i + 1;
    }
    assert i == |both|;
    if i == MAX_PATH {
      return Overrun;
    }
    dst[i] := '\0';
    return Ok(both);
  }

  /** The component loop, with its look-ahead over a run of ".."; it is a walk from an empty stack. */
  method Resolve(names: seq<string>) returns (gen: seq<string>)
    ensures gen == Walk([], names)
  {
    gen := [];
    var i := 0;
    assert Walk([], names[..0]) == [];
    hide Walk;
    while i < |names|
      invariant 0 <= i <= |names| && gen == Walk([], names[..i])
    {
      if names[i] == "." {
        Advance(names, i);
      } else if names[i] == ".." {
        var more := true;
        ghost var run := i;
        while more
          invariant run <= i <= |names| && gen == Walk([], names[..i])
          invariant more ==> i < |names| && names[i] == ".."
          invariant run < i || more
          decreases |names| - i, more
        {
          Advance(names, i);
          if gen != [] {
            gen := gen[..|gen| - 1];
          }
          i := i + 1;
          more := i < |names| && names[i] == "..";
        }
        i := i - 1;
      } else {
        Advance(names, i);
        gen := gen + [names[i]];
      }
      i := i + 1;
    }
    assert names[..|names|] == names;
  }

  lemma Advance(names: seq<string>, i: nat)
    requires i < |names|
    ensures Walk([], names[..i + 1]) == Step(Walk([], names[..i]), names[i])
  {
    assert names[..i + 1] == names[..i] + [names[i]];
    WalkSnoc([], names[..i], names[i]);
  }

  /** The assembling loop. */
  method AssemblePath(gen: seq<string>) returns (res: string)
    ensures res == Assemble(gen)
  {
    res := "";
    for i := 0 to |gen|
      invariant res + Join(gen[i..]) == Join(gen) || (i == |gen| && res == Join(gen))
    {
      assert gen[i..][1..] == gen[i + 1..];
      res := res + gen[i];
      if i != |gen| - 1 {
        res := res + "/";
      }
    }
    if |res| == 0 {
      res := "/";
    }
  }

  // ---------------------------------------------------------------- krealpath

  /** The path from the root to a directory whose name and ancestors' names are dirs, innermost first. */
  function Up(dirs: seq<string>): string
  {
    if dirs == [] then "" else Up(dirs[1..]) + "/" + dirs[0]
  }

  /** The text that is split: the path itself, or the path behind that of the current directory. */
  function TextOf(dirs: seq<string>, path: string): (t: string)
    ensures Absolute(t)
  {
    if Absolute(path) then path else
      UpStarts(dirs);
      Up(dirs) + "/" + path
  }

  lemma {:induction false} UpStarts(dirs: seq<string>)
    ensures dirs != [] ==> Absolute(Up(dirs))
    decreases |dirs|
  {
    if dirs != [] {
      UpStarts(dirs[1..]);
    }
  }

  /** The loop that puts the names of a directory and its ancestors before tmp. */
  function Gather(tmp: string, dirs: seq<string>): Result
    decreases |dirs|
  {
    if dirs == [] then Ok(tmp) else
      var named := Pushed(tmp, dirs[0]);
      if !named.Ok? then named else
        var rooted := Pushed(named.path, "/");
        if !rooted.Ok? then rooted else Gather(rooted.path, dirs[1..])
  }

  /** The same where the walk ends at the root or, if `lost`, at a directory that cannot be read. */
  function Ascent(dirs: seq<string>, lost: bool): Result
  {
    if lost && Gather("", dirs).Ok? then Invalid else Gather("", dirs)
  }

  function Finish(text: string): Result
  {
    if |text| > MAX_PATH then NameTooLong
    else if Extent(text) > MAX_PATH then Overrun
    else Ok(Normal(text))
  }

  /** krealpath; on a directory path of 255 characters strcat writes the terminator past tmp. */
  function RealPath(dirs: seq<string>, path: string): Result
  {
    if Absolute(path) then Finish(path) else
      var up := Gather("", dirs);
      if !up.Ok? then up
      else if |up.path| + 1 > MAX_PATH then NameTooLong
      else if |up.path| + 1 == MAX_PATH then Overrun
      else Finish(up.path + "/" + path)
  }

  lemma {:induction false} GatherExact(tmp: string, dirs: seq<string>)
    requires |tmp| < MAX_PATH
    ensures Gather(tmp, dirs).Ok? <==> |Up(dirs)| + |tmp| < MAX_PATH
    ensures Gather(tmp, dirs).Ok? ==> Gather(tmp, dirs).path == Up(dirs) + tmp
    decreases |dirs|
  {
    if dirs != [] {
      var next := "/" + (dirs[0] + tmp);
      if |next| < MAX_PATH {
        GatherExact(next, dirs[1..]);
        assert Up(dirs[1..]) + next == Up(dirs) + tmp;
      }
    }
  }

  /** krealpath succeeds exactly when splitting the whole text stays inside the buffer, and then normalises it. */
  lemma SucceedsExact(dirs: seq<string>, path: string)
    ensures RealPath(dirs, path).Ok? <==> Extent(TextOf(dirs, path)) <= MAX_PATH
    ensures RealPath(dirs, path).Ok? ==> RealPath(dirs, path) == Ok(Normal(TextOf(dirs, path)))
  {
    hide Extent, Normal;
    GatherExact("", dirs);
    assert Up(dirs) + "" == Up(dirs);
    ExtentExact(TextOf(dirs, path));
  }

  /** What it assembles fits the caller's buffer with its terminator, and the pointer tables hold all components. */
  lemma ResultFits(text: string)
    requires Absolute(text) && Extent(text) <= MAX_PATH
    ensures |Normal(text)| < MAX_PATH && |Split(text)| < MAX_PATH
  {
    ExtentExact(text);
    SplitCount(text);
    WalkShorter([], Split(text));
    assert [] + Split(text) == Split(text);
    SplitJoin(text);
  }

  lemma {:induction false} SplitCount(t: string)
    ensures |Split(t)| <= |t|
    decreases |t|
  {
    if t != [] && FirstSlash(t) < |t| {
      SplitCount(t[FirstSlash(t) + 1..]);
    }
  }

  /** The loop over the parents of the current directory, on the buffer tmp. */
  method PathToRoot(tmp: array<char>, dirs: seq<string>, lost: bool) returns (r: Result)
    requires tmp.Length == MAX_PATH && NamedAt(tmp[..], 0, "") && forall c | c in dirs :: CString(c)
    modifies tmp
    ensures r == Ascent(dirs, lost) && (r.Ok? ==> NamedAt(tmp[..], 0, r.path))
  {
    hide NamedAt, CString;
    ghost var t := "";
    var i := 0;
    assert dirs[0..] == dirs;
    while i < |dirs|
      invariant 0 <= i <= |dirs| && NamedAt(tmp[..], 0, t) && Gather("", dirs) == Gather(t, dirs[i..])
    {
      assert dirs[i..][1..] == dirs[i + 1..] && dirs[i] in dirs;
      r := PushFront(tmp, dirs[i], t);
      if !r.Ok? {
        return;
      }
      t := r.path;
      Slash();
      r := PushFront(tmp, "/", t);
      if !r.Ok? {
        return;
      }
      t := r.path;
      i := i + 1;
    }
    if lost {
      return Invalid;
    }
    var text := StringAt(tmp, 0, t);
    return Ok(text);
  }

  lemma Slash()
    ensures CString("/")
  {
  }

  /** krealpath with the names of the current directory and its ancestors given, up to the root or to one that cannot be read. */
  method Krealpath(dirs: seq<string>, lost: bool, path: string) returns (r: Result)
    requires CString(path) && forall c | c in dirs :: CString(c)
    ensures !lost || Absolute(path) ==> r == RealPath(dirs, path)
    ensures lost && !Absolute(path) ==> r == Ascent(dirs, lost) && !r.Ok?
  {
    var text := "";
    if !Absolute(path) {
      var tmp := new char[MAX_PATH](_ => '\0');
      r := PathToRoot(tmp, dirs, lost);
      if !r.Ok? {
        return;
      }
      if |r.path| + 1 > MAX_PATH {
        return NameTooLong;
      }
      if |r.path| + 1 == MAX_PATH {
        return Overrun;
      }
      text := r.path + "/";
      var res := new char[MAX_PATH](_ => '\0');
      r := PushFront(res, text, "");
      assert text + "" == text;
      text := r.path;
    }
    assert Absolute(path) ==> text + path == path;
    if |text| + |path| > MAX_PATH {
      return NameTooLong;
    }
    if |text| + |path| == MAX_PATH {
      ExtentExact(text + path);
      return Overrun;
    }
    r := NormalForm(text + path);
  }

  /** The second half of krealpath: split in place, resolve, assemble. */
  method NormalForm(text: string) returns (r: Result)
    requires CString(text) && |text| < MAX_PATH
    ensures r == Finish(text)
  {
    var buffer := new char[MAX_PATH](i => if 0 <= i < |text| then text[i] else '\0');
    var ok, tab := Components(buffer, text);
    if !ok {
      return Overrun;
    }
    var names := Strings(buffer, tab, text);
    var gen := Resolve(names);
    var res := AssemblePath(gen);
    return Ok(res);
  }

  /** Reading the strings that the pointers denote. */
  method Strings(buffer: array<char>, tab: seq<nat>, ghost text: string) returns (names: seq<string>)
    requires buffer.Length == MAX_PATH && Pointed(buffer[..], tab, Split(text))
    ensures names == Split(text)
  {
    names := [];
    for k := 0 to |tab|
      invariant names == Split(text)[..k]
    {
      assert NamedAt(buffer[..], tab[k], Split(text)[k]);
      var name := StringAt(buffer, tab[k], Split(text)[k]);
      names := names + [name];
    }
  }

  method StringAt(buffer: array<char>, j: nat, ghost name: string) returns (s: string)
    requires NamedAt(buffer[..], j, name)
    ensures s == name
  {
    s := "";
    while buffer[j + |s|] != '\0'
      invariant |s| <= |name| && s == name[..|s|]
      decreases |name| - |s|
    {
      s := s + [buffer[j + |s|]];
    }
  }

  // ---------------------------------------------------------------- what it means

  /** The current directory as a place. */
  function Cwd(dirs: seq<string>): seq<string>
  {
    if dirs == [] then [] else Cwd(dirs[1..]) + [dirs[0]]
  }

  /** Names that a directory can have. */
  ghost predicate Legal(dirs: seq<string>)
  {
    forall c | c in dirs :: Ordinary(c) && c != "" && '/' !in c
  }

  lemma {:induction false} CwdLegal(dirs: seq<string>)
    ensures forall c | c in Cwd(dirs) :: c in dirs
    decreases |dirs|
  {
    if dirs != [] {
      CwdLegal(dirs[1..]);
    }
  }

  lemma {:induction false} UpSplits(dirs: seq<string>, rest: string)
    requires Legal(dirs)
    ensures Split(Up(dirs) + "/" + rest) == [""] + Cwd(dirs) + Split(rest)
    decreases |dirs|
  {
    hide Split, Ordinary;
    if dirs == [] {
      SplitHead("", rest);
      assert Up(dirs) + "/" + rest == "" + "/" + rest;
    } else {
      var outer, name := dirs[1..], dirs[0];
      assert name in dirs && forall c | c in outer :: c in dirs;
      UpSplits(outer, name + "/" + rest);
      SplitHead(name, rest);
      Regroup(Up(outer), "/", name, "/", rest);
      Regroup([""], Cwd(outer), [name], [], Split(rest));
    }
  }

  lemma Regroup<T>(a: seq<T>, b: seq<T>, c: seq<T>, d: seq<T>, e: seq<T>)
    ensures a + b + c + d + e == a + b + (c + d + e)
    ensures a + b + (c + d + e) == a + (b + c) + d + e
    ensures d == [] ==> c + d + e == c + e && a + (b + c) + d + e == a + (b + c) + e
  {
  }

  lemma {:induction false} ClimbsFrom(place: seq<string>, names: seq<string>, rest: seq<string>)
    requires forall c | c in names :: Ordinary(c)
    ensures Climbs(place, names + rest) == Climbs(place + names, rest)
    decreases |names|
  {
    if names == [] {
      assert names + rest == rest && place + names == place;
    } else {
      assert names[0] in names && forall c | c in names[1..] :: c in names;
      assert (names + rest)[1..] == names[1..] + rest;
      ClimbsFrom(place + [names[0]], names[1..], rest);
      assert place + [names[0]] + names[1..] == place + names;
    }
  }

  /** A relative path is resolved from the current directory, exactly as long as it does not climb past the root. */
  lemma RelativeExact(dirs: seq<string>, path: string)
    requires Legal(dirs) && !Absolute(path) && NoEmptyName(Split(path)) && RealPath(dirs, path).Ok?
    ensures var place := Walk(Cwd(dirs), Split(path));
            RealPath(dirs, path) == Ok(PathOf(place)) <==> !Climbs(Cwd(dirs), Split(path)) || place == []
  {
    hide Split, Walk, Climbs, Normal, Join, RealPath, Extent;
    SucceedsExact(dirs, path);
    var cwd, names := Cwd(dirs), Split(path);
    RelativeNames(dirs, path);
    WalkConcat([], cwd, names);
    WalkAppends([], cwd);
    ClimbsFrom([], cwd, names);
    assert [] + cwd == cwd;
    NormalExact(TextOf(dirs, path));
  }

  lemma RelativeNames(dirs: seq<string>, path: string)
    requires Legal(dirs) && !Absolute(path)
    ensures Names(TextOf(dirs, path)) == Cwd(dirs) + Split(path) && Legal(Cwd(dirs))
  {
    hide Split;
    var text := TextOf(dirs, path);
    UpSplits(dirs, path);
    CwdLegal(dirs);
    AbsoluteSplit(text);
    var head, names, cwd := [""], Names(text), Cwd(dirs) + Split(path);
    assert head + Cwd(dirs) + Split(path) == head + cwd;
    assert (head + names)[1..] == names && (head + cwd)[1..] == cwd;
  }

  /**
   krealpath leaves its own result alone, whatever the current directory, exactly when no ".." climbed
   past the root or the walk ends there, and the result itself can be split inside the buffer, which
   a trailing '/' that is gone from it may have been needed for.
   */
  lemma IdempotentExact(dirs: seq<string>, path: string)
    requires RealPath(dirs, path).Ok? && NoEmptyName(Names(TextOf(dirs, path)))
    ensures var r := RealPath(dirs, path).path;
            var names := Names(TextOf(dirs, path));
            (forall other :: RealPath(other, r) == Ok(r)) <==>
            (!Climbs([], names) || Walk([], names) == []) && Extent(PathOf(Walk([], names))) <= MAX_PATH
  {
    hide Walk, Split, Climbs, Join, Normal, Extent, RealPath;
    var text := TextOf(dirs, path);
    SucceedsExact(dirs, path);
    var r, place := Normal(text), Walk([], Names(text));
    NormalExact(text);
    if Absolute(r) {
      NormalMeaning(text);
      SucceedsExact([], r);
      forall other | Extent(r) <= MAX_PATH
        ensures RealPath(other, r) == Ok(r)
      {
        SucceedsExact(other, r);
      }
    } else {
      WalkOrdinary([], Names(text));
      PathOfPlace(place);
      SucceedsExact([], r);
      assert TextOf([], r) == PathOf(place);
      assert RealPath([], r) != Ok(r);
    }
  }

  lemma WitnessTexts()
    ensures TextOf(["b", "a"], "c") == "/a/b/c" && TextOf(["b", "a"], "../c") == "/a/b/../c"
  {
    assert ["b", "a"][1..] == ["a"] && ["a"][1..] == [];
    assert Up(["a"]) == "/a" && Up(["b", "a"]) == "/a/b";
  }

  lemma WitnessPaths()
    ensures PathOf(["a", "b", "c"]) == "/a/b/c" && PathOf(["a", "c"]) == "/a/c" && PathOf(["a", "b", "..", "c"]) == "/a/b/../c"
  {
    assert ["a", "b", "c"][1..] == ["b", "c"] && ["b", "c"][1..] == ["c"] && ["a", "c"][1..] == ["c"];
    assert ["a", "b", "..", "c"][1..] == ["b", "..", "c"] && ["b", "..", "c"][1..] == ["..", "c"] && ["..", "c"][1..] == ["c"];
    assert Join(["c"]) == "c" && Join(["..", "c"]) == "../c" && Join(["b", "c"]) == "b/c";
  }

  lemma WitnessNormal()
    ensures Normal("/a/b/c") == "/a/b/c" && Normal("/a/b/../c") == "/a/c"
  {
    hide Normal, PathOf, Join, Walk;
    WitnessPaths();
    PathOfPlace(["a", "b", "c"]);
    PathOfPlace(["a", "c"]);
    assert ["a"] + ["b", ".."] + ["c"] == ["a", "b", "..", "c"] && ["a"] + ["c"] == ["a", "c"];
    ParentCancels(["a"], "b", ["c"]);
  }

  /** From the directory "b" in "a" in the root. */
  lemma RelativeWitness()
    ensures RealPath(["b", "a"], "c") == Ok("/a/b/c") && RealPath(["b", "a"], "../c") == Ok("/a/c")
  {
    hide Extent, Normal, RealPath, TextOf, Split;
    WitnessTexts();
    WitnessNormal();
    ExtentExact("/a/b/c");
    ExtentExact("/a/b/../c");
    SucceedsExact(["b", "a"], "c");
    SucceedsExact(["b", "a"], "../c");
  }

  /** krealpath treats a component followed by ".." as if neither were there, from every current directory. */
  lemma ParentCancelled(dirs: seq<string>, a: seq<string>, x: string, b: seq<string>)
    requires Proper(a + b) && Ordinary(x) && '/' !in x
    requires RealPath(dirs, PathOf(a + [x, ".."] + b)).Ok? && RealPath(dirs, PathOf(a + b)).Ok?
    ensures RealPath(dirs, PathOf(a + [x, ".."] + b)) == RealPath(dirs, PathOf(a + b))
  {
    hide Extent, Normal, Join;
    SucceedsExact(dirs, PathOf(a + [x, ".."] + b));
    SucceedsExact(dirs, PathOf(a + b));
    ParentCancels(a, x, b);
  }
}
