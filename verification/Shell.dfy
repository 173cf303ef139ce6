/** The shell's current directory: its cluster, its table and the path that is printed. */
module Shell {
  import opened Layout
  import opened Volumes
  import opened Tree
  import opened Directories
  import opened Driver
  import Strings

  const NUL: char := '\0'

  // ----- paths

  /** A component that fits the buffers on its way: 1 to 7 characters, no slash, no terminator. */
  predicate Proper(x: string) {
    1 <= |x| <= 7 && '/' !in x && NUL !in x && x[0] as int % 256 != 0
  }

  function KeyOf(x: string): Key {
    Key(Ascii(Strings.Padded(x, 8)), NO_EXT)
  }

  /** The folders entered on the way from the root, by name. */
  datatype Trail = Top | Into(front: Trail, name: string)

  /** The printed path of a trail. */
  function Rendered(t: Trail): (r: string)
    ensures |r| >= 5 && r[|r| - 1] == '/'
  {
    match t
    case Top => "Root/"
    case Into(front, name) => Rendered(front) + name + "/"
  }

  /** Where looking up the names of a trail leads from the root. */
  function Resolve(v: Volume, t: Trail): nat {
    match t
    case Top => ROOT_CLUSTER
    case Into(front, name) =>
      var d := Resolve(v, front);
      if TableAt?(v, d) then FindCluster(TableAt(v, d), KeyOf(name)) else NOT_FOUND
  }

  /** x names a folder in directory d. */
  predicate NamesFolder(v: Volume, d: nat, x: string) {
    Proper(x) && Present(v, Path(d, KeyOf(x))) && Lookup(v, Path(d, KeyOf(x))).Folder?
  }

  predicate TrailOk(v: Volume, t: Trail) {
    t.Into? ==> TrailOk(v, t.front) && NamesFolder(v, Resolve(v, t.front), t.name)
  }

  /** Entering a folder leads to a live directory whose parent is the one it was entered from. */
  lemma EnteredFolder(v: Volume, d: nat, x: string)
    requires Inv(v) && NamesFolder(v, d, x)
    ensures var c := FindCluster(TableAt(v, d), KeyOf(x));
      c != NOT_FOUND && IsDir(v, c) && c != ROOT_CLUSTER && Parent(v, c) == d
  {
    FoundEntry(v, d, KeyOf(x));
  }

  /** A trail ends in a live directory, at the root exactly if it is empty, and its front in the parent. */
  lemma TrailLeadsToDir(v: Volume, t: Trail)
    requires Inv(v) && TrailOk(v, t)
    ensures IsDir(v, Resolve(v, t)) && DirOk(v, Resolve(v, t))
    ensures Resolve(v, t) == ROOT_CLUSTER <==> t == Top
    ensures t.Into? ==> Parent(v, Resolve(v, t)) == Resolve(v, t.front) && IsDir(v, Resolve(v, t.front))
  {
    if t.Into? {
      EnteredFolder(v, Resolve(v, t.front), t.name);
    } else {
      assert IsDir(v, ROOT_CLUSTER);
    }
  }

  // ----- names as bytes

  /** Every character is a byte. */
  predicate Bytewise(x: string) {
    forall i | 0 <= i < |x| :: x[i] as int < 256
  }

  /** A component is looked up by its own characters, filled up with zeroes, and without an extension. */
  lemma KeyIsName(x: string)
    requires Proper(x) && Bytewise(x)
    ensures KeyOf(x).ext == [0, 0, 0]
    ensures forall i | 0 <= i < 8 :: KeyOf(x).name[i] == if i < |x| then x[i] as int else 0
  {
    var p := Strings.Padded(x, 8);
    forall i | 0 <= i < 8
      ensures KeyOf(x).name[i] == if i < |x| then x[i] as int else 0
    {
      assert KeyOf(x).name[i] == p[i] as int % 256;
    }
  }

  /** The first zero in a key's name tells how long the component is. */
  lemma KeyLength(x: string)
    requires Proper(x) && Bytewise(x)
    ensures forall i | 0 <= i < 8 :: KeyOf(x).name[i] == 0 <==> i >= |x|
  {
    KeyIsName(x);
    assert forall i | 0 <= i < |x| :: x[i] in x;
  }

  /** Different names are looked up by different keys. */
  lemma KeysDiffer(x: string, y: string)
    requires Proper(x) && Bytewise(x) && Proper(y) && Bytewise(y)
    ensures KeyOf(x) == KeyOf(y) <==> x == y
  {
    if KeyOf(x) == KeyOf(y) {
      KeyLength(x);
      KeyLength(y);
      assert KeyOf(x).name[|x|] == 0 && KeyOf(y).name[|y|] == 0;
      KeyIsName(x);
      KeyIsName(y);
      assert forall i | 0 <= i < |x| :: x[i] as int == KeyOf(x).name[i] == y[i] as int;
    }
  }

  /** The names of a trail, as bytes. */
  function NamesOf(t: Trail): seq<Name> {
    match t
    case Top => []
    case Into(front, name) => NamesOf(front) + [KeyOf(name).name]
  }

  /** The names of a trail are, in reverse, those printed on the way up from its directory. */
  lemma {:induction false} TrailNames(v: Volume, t: Trail)
    requires Inv(v) && TrailOk(v, t)
    ensures IsDir(v, Resolve(v, t)) && Reverse(NamesUp(v, Resolve(v, t))) == NamesOf(t)
  {
    TrailLeadsToDir(v, t);
    if t.Into? {
      var c, d := Resolve(v, t), Resolve(v, t.front);
      TrailNames(v, t.front);
      FoundEntry(v, d, KeyOf(t.name));
      ParentIsDir(v, c);
      OneNameUp(v, c, []);
      assert NamesUp(v, c) == [Slot(v, c, 0).key.name] + NamesUp(v, d);
      assert NamesUp(v, c)[1..] == NamesUp(v, d);
    }
  }

  // ----- splitting a path

  /** A path's character at i; its buffer is filled up with terminators. */
  function CharAt(path: string, i: nat): char {
    if i < |path| then path[i] else NUL
  }

  /** Where the component that starts at i ends. */
  function ComponentEnd(path: string, i: nat): (e: nat)
    ensures e >= i && (i <= |path| ==> e <= |path|)
    decreases |path| - i
  {
    if i >= |path| || path[i] == '/' then i else ComponentEnd(path, i + 1)
  }

  /** The components from position i on. */
  function Components(path: string, i: nat): (cs: seq<string>)
    requires i <= |path|
    decreases |path| - i
  {
    var e := ComponentEnd(path, i);
    if e == |path| then [path[i..]] else [path[i..e]] + Components(path, e + 1)
  }

  /** x names nothing in directory d. */
  predicate NamesNothing(v: Volume, d: nat, x: string) {
    Proper(x) && IsDir(v, d) && !Present(v, Path(d, KeyOf(x)))
  }

  /** From the trail on each component names a folder in the one before; the last may name nothing. */
  predicate Walkable(v: Volume, t: Trail, cs: seq<string>)
    decreases |cs|
  {
    || cs == []
    || (NamesFolder(v, Resolve(v, t), cs[0]) && Walkable(v, Into(t, cs[0]), cs[1..]))
    || (|cs| == 1 && NamesNothing(v, Resolve(v, t), cs[0]))
  }

  /** The components, looked up one after the other, do not all name folders. */
  predicate Missing(v: Volume, t: Trail, cs: seq<string>)
    decreases |cs|
  {
    cs != [] && (!NamesFolder(v, Resolve(v, t), cs[0]) || Missing(v, Into(t, cs[0]), cs[1..]))
  }

  /** The trail once all the components were entered. */
  function Entered(t: Trail, cs: seq<string>): Trail
    decreases |cs|
  {
    if cs == [] then t else Entered(Into(t, cs[0]), cs[1..])
  }

  /** Where the walk ends. */
  function Reached(v: Volume, t: Trail, cs: seq<string>): Trail
    decreases |cs|
  {
    if cs == [] || !NamesFolder(v, Resolve(v, t), cs[0]) then t else Reached(v, Into(t, cs[0]), cs[1..])
  }

  /** The walk ends past the whole path, or before its last component if that is missing. */
  lemma {:induction false} WholePath(v: Volume, t: Trail, cs: seq<string>)
    requires Walkable(v, t, cs)
    ensures !Missing(v, t, cs) ==> Reached(v, t, cs) == Entered(t, cs)
    ensures Missing(v, t, cs) ==> cs != [] && Reached(v, t, cs) == Entered(t, cs[..|cs| - 1])
    decreases |cs|
  {
    hide NamesFolder, NamesNothing, Resolve;
    if |cs| == 1 {
      assert cs[1..] == [] && !Missing(v, Into(t, cs[0]), cs[1..]);
      assert Entered(t, cs[..|cs| - 1]) == t;
    } else if |cs| > 1 {
      WholePath(v, Into(t, cs[0]), cs[1..]);
      assert cs[..|cs| - 1][1..] == cs[1..][..|cs| - 2] && cs[..|cs| - 1][0] == cs[0];
    }
  }

  /** From trail t on, the components `rest` lead where `all` of them lead from `start`. */
  predicate Heading(v: Volume, start: Trail, all: seq<string>, t: Trail, rest: seq<string>) {
    && Walkable(v, t, rest)
    && Reached(v, t, rest) == Reached(v, start, all) && Missing(v, t, rest) == Missing(v, start, all)
  }

  lemma SetOut(v: Volume, start: Trail, all: seq<string>)
    requires Walkable(v, start, all)
    ensures Heading(v, start, all, start, all)
  {
  }

  /** One component further. */
  lemma WalkOn(v: Volume, start: Trail, all: seq<string>, t: Trail, rest: seq<string>, u: Trail)
    requires rest != [] && Heading(v, start, all, t, rest)
    requires u == if NamesFolder(v, Resolve(v, t), rest[0]) then Into(t, rest[0]) else t
    ensures NamesFolder(v, Resolve(v, t), rest[0]) || NamesNothing(v, Resolve(v, t), rest[0])
    ensures |rest| > 1 ==>
      && NamesFolder(v, Resolve(v, t), rest[0]) && Heading(v, start, all, u, rest[1..])
      && |Rendered(u)| == |Rendered(t)| + |rest[0]| + 1
    ensures |rest| == 1 ==>
      u == Reached(v, start, all) && (Missing(v, start, all) <==> !NamesFolder(v, Resolve(v, t), rest[0]))
  {
    hide NamesFolder, NamesNothing, Resolve;
    if |rest| == 1 {
      assert rest[1..] == [] && !Missing(v, u, rest[1..]) && Reached(v, u, rest[1..]) == u;
    }
  }

  /** The components left are dir and those from position `at` on; all of them fit into `room`. */
  predicate Ahead(path: string, rest: seq<string>, dir: string, at: nat, room: int) {
    && rest != [] && rest[0] == dir && at <= |path| + 1
    && rest[1..] == (if at <= |path| then Components(path, at) else [])
    && |dir| + 1 + (|path| + 1 - at) <= room
  }

  /** The first of the components from position i on, and the others. */
  lemma FirstComponent(path: string, i: nat)
    requires i <= |path|
    ensures var e, cs := ComponentEnd(path, i), Components(path, i);
      cs != [] && cs[0] == path[i..e] && cs[1..] == if e == |path| then [] else Components(path, e + 1)
  {
    var e, cs := ComponentEnd(path, i), Components(path, i);
    if e == |path| {
      assert cs == [path[i..]] && path[i..] == path[i..e] && cs[1..] == [];
    } else {
      assert cs == [path[i..e]] + Components(path, e + 1) && cs[1..] == Components(path, e + 1);
    }
  }

  lemma AheadFirst(path: string, dir: string, at: nat, room: int)
    requires dir == path[..ComponentEnd(path, 0)] && at == ComponentEnd(path, 0) + 1 && |path| + 1 <= room
    ensures Ahead(path, Components(path, 0), dir, at, room)
  {
    assert path[0..] == path && path[0..ComponentEnd(path, 0)] == dir;
    FirstComponent(path, 0);
  }

  lemma AheadFits(path: string, rest: seq<string>, dir: string, at: nat, room: int)
    requires Ahead(path, rest, dir, at, room)
    ensures rest != [] && rest[0] == dir && |dir| + 1 <= room && (|rest| > 1 <==> at <= |path|)
  {
  }

  lemma AheadNext(path: string, rest: seq<string>, dir: string, at: nat, room: int, next: string)
    requires Ahead(path, rest, dir, at, room) && |rest| > 1 && next == path[at..ComponentEnd(path, at)]
    ensures Ahead(path, rest[1..], next, ComponentEnd(path, at) + 1, room - |dir| - 1)
  {
    FirstComponent(path, at);
  }

  /** A proper name's key is not the empty key. */
  lemma ProperKey(x: string)
    requires Proper(x) && x[0] as int % 256 != 0
    ensures KeyOf(x) != NO_KEY
  {
    assert KeyOf(x).name[0] == x[0] as int % 256;
  }

  lemma {:induction false} ComponentCount(path: string, i: nat, n: nat)
    requires i <= |path| && n == |set k | i <= k < |path| && path[k] == '/'|
    ensures |Components(path, i)| == n + 1
    decreases |path| - i
  {
    var e := ComponentEnd(path, i);
    NoSlashBefore(path, i);
    if e == |path| {
      assert (set k | i <= k < |path| && path[k] == '/') == {};
    } else {
      assert (set k | i <= k < |path| && path[k] == '/') == {e} + (set k | e + 1 <= k < |path| && path[k] == '/');
      ComponentCount(path, e + 1, n - 1);
    }
  }

  lemma {:induction false} NoSlashBefore(path: string, i: nat)
    requires i <= |path|
    ensures forall k | i <= k < ComponentEnd(path, i) :: path[k] != '/'
    ensures ComponentEnd(path, i) < |path| ==> path[ComponentEnd(path, i)] == '/'
    decreases |path| - i
  {
    if i < |path| && path[i] != '/' {
      NoSlashBefore(path, i + 1);
    }
  }

  /** Components with a slash between each two. */
  function Joined(cs: seq<string>): string {
    if cs == [] then "" else if |cs| == 1 then cs[0] else cs[0] + "/" + Joined(cs[1..])
  }

  /** The components hold no slash and, joined, are the path again. */
  lemma {:induction false} ComponentsJoined(path: string, i: nat)
    requires i <= |path|
    ensures Joined(Components(path, i)) == path[i..]
    ensures forall x | x in Components(path, i) :: '/' !in x
    decreases |path| - i
  {
    hide Components, ComponentEnd;
    var e, cs := ComponentEnd(path, i), Components(path, i);
    FirstComponent(path, i);
    NoSlashBefore(path, i);
    assert cs == [cs[0]] + cs[1..];
    if e < |path| {
      FirstComponent(path, e + 1);
      ComponentsJoined(path, e + 1);
      assert path[i..] == path[i..e] + "/" + path[e + 1..];
    } else {
      assert path[i..e] == path[i..];
    }
  }

  /** Entering the components of a path appends the path and a slash to what is printed. */
  lemma {:induction false} PrintedPath(t: Trail, cs: seq<string>)
    requires cs != []
    ensures Rendered(Entered(t, cs)) == Rendered(t) + Joined(cs) + "/"
    decreases |cs|
  {
    if |cs| == 1 {
      assert Entered(Into(t, cs[0]), cs[1..]) == Into(t, cs[0]);
    } else {
      PrintedPath(Into(t, cs[0]), cs[1..]);
      assert Rendered(Into(t, cs[0])) + Joined(cs[1..]) == Rendered(t) + (cs[0] + "/" + Joined(cs[1..]));
    }
  }

  /** A path whose components all name folders is appended to what is printed. */
  lemma FollowedPath(v: Volume, t: Trail, path: string)
    requires Walkable(v, t, Components(path, 0)) && !Missing(v, t, Components(path, 0))
    ensures Rendered(Reached(v, t, Components(path, 0))) == Rendered(t) + path + "/"
  {
    hide Walkable, Missing, Reached, Components, Rendered, Joined, Entered;
    var cs := Components(path, 0);
    WholePath(v, t, cs);
    FirstComponent(path, 0);
    ComponentsJoined(path, 0);
    PrintedPath(t, cs);
    assert path[0..] == path;
  }

  method CountPath(path: string) returns (n: nat)
    requires NUL !in path
    ensures n == |Components(path, 0)|
  {
    var count, i := 0, 0;
    while CharAt(path, i) != NUL
      invariant i <= |path| && count == |set k | 0 <= k < i && path[k] == '/'|
      decreases |path| - i
    {
      assert (set k | 0 <= k < i + 1 && path[k] == '/')
          == (set k | 0 <= k < i && path[k] == '/') + if path[i] == '/' then {i} else {};
      if CharAt(path, i) == '/' {
        count := count + 1;
      }
      i := i + 1;
    }
    ComponentCount(path, 0, count);
    n := count + 1;
  }

  /** The component that starts at i, and where the next one starts. */
  method GetDir(path: string, i: nat) returns (dir: string, next: nat)
    requires NUL !in path
    ensures next == ComponentEnd(path, i) + 1
    ensures dir == if i <= |path| then path[i..ComponentEnd(path, i)] else ""
  {
    var k := i;
    dir := "";
    while CharAt(path, k) != '/' && CharAt(path, k) != NUL
      invariant k >= i && (i <= |path| ==> k <= |path|) && (i > |path| ==> k == i)
      invariant dir == if i <= |path| then path[i..k] else ""
      invariant ComponentEnd(path, i) == ComponentEnd(path, k)
      decreases |path| - k
    {
      dir := dir + [path[k]];
      k := k + 1;
    }
    next := k + 1;
  }

  lemma LastCharacter(text: string, x: string, k: nat)
    requires |text| > 0 && text[|text| - 1] == '/' && '/' !in x && k <= |x|
    ensures k == 0 <==> (text + x[..k])[|text| + k - 1] == '/'
  {
    if k > 0 {
      assert (text + x[..k])[|text| + k - 1] == x[k - 1];
    }
  }

  lemma OneComponent(v: Volume, t: Trail, x: string)
    requires NamesFolder(v, Resolve(v, t), x)
    ensures NUL !in x && Components(x, 0) == [x] && Walkable(v, t, [x])
    ensures Reached(v, t, [x]) == Into(t, x) && !Missing(v, t, [x])
  {
    NoSlashBefore(x, 0);
    assert [x][1..] == [];
  }

  /** Looking a proper name up in the current directory. */
  lemma LookedUp(v: Volume, t: Trail, x: string, c: nat)
    requires Inv(v) && TrailOk(v, t) && IsDir(v, Resolve(v, t))
    requires NamesFolder(v, Resolve(v, t), x) || NamesNothing(v, Resolve(v, t), x)
    requires c == FindCluster(TableAt(v, Resolve(v, t)), KeyOf(x))
    ensures Proper(x) && (c != NOT_FOUND <==> NamesFolder(v, Resolve(v, t), x))
    ensures c != NOT_FOUND ==>
      && IsDir(v, c) && TrailOk(v, Into(t, x)) && Resolve(v, Into(t, x)) == c
      && Rendered(Into(t, x)) == Rendered(t) + x + "/"
  {
    ProperKey(x);
    if NamesFolder(v, Resolve(v, t), x) {
      EnteredFolder(v, Resolve(v, t), x);
    }
  }

  /** Leaving a directory below the root leads to the one it was entered from. */
  lemma Left(v: Volume, t: Trail)
    requires Inv(v) && TrailOk(v, t) && t.Into?
    ensures TrailOk(v, t.front) && Resolve(v, t.front) == Parent(v, Resolve(v, t)) && IsDir(v, Resolve(v, t.front))
    ensures Proper(t.name) && Rendered(t) == Rendered(t.front) + t.name + "/"
  {
    TrailLeadsToDir(v, t);
  }

  // ----- the shell

  /** What `cd` prints. */
  datatype Reply = Quiet | MissingArgument | AlreadyInRoot | PathNotValid

  /** The paths that `cd` follows name by name. */
  predicate Followed(path: string) {
    path != "" && path != ".."
  }

  class Shell {
    const fs: Fat32
    const curDir: array<char>
    var idx: nat
    var curCluster: nat
    var cwdTable: Table
    ghost var trail: Trail

    /** The buffer holds the text and nothing after it. */
    predicate Shows(text: string)
      reads this, curDir
    {
      && curDir.Length == 100 && idx == |text| <= 100 && curDir[..idx] == text
      && forall k | idx <= k < 100 :: curDir[k] == NUL
    }

    /** The printed path, the current cluster and its table are those of the trail. */
    ghost predicate Valid()
      reads this, fs, fs.device.image, fs.clusterMap, curDir
    {
      && fs.Valid() && Inv(fs.vol) && TrailOk(fs.vol, trail)
      && Shows(Rendered(trail)) && curCluster == Resolve(fs.vol, trail) && At(curCluster)
    }

    ghost predicate At(c: nat)
      reads this, fs
    {
      IsDir(fs.vol, c) && cwdTable == fs.vol.disk[c].table
    }

    constructor (fs: Fat32)
      requires fs.Valid() && Inv(fs.vol)
      ensures Valid() && this.fs == fs && trail == Top && fresh(curDir)
      ensures curDir[..idx] == "Root/" && curCluster == ROOT_CLUSTER
    {
      hide TableIn, Bytes, Image, Inv, Strings.Padded;
      this.fs := fs;
      curDir := new char[100](k requires 0 <= k < 100 => if k < 5 then "Root/"[k] else NUL);
      idx := 5;
      curCluster := ROOT_CLUSTER;
      trail := Top;
      cwdTable := ZeroTable();
      new;
      TrailLeadsToDir(fs.vol, Top);
      cwdTable := fs.ReadTable(ROOT_CLUSTER);
    }

    /** Appends a name and a slash. */
    method AddPath(x: string, ghost text: string)
      requires Shows(text) && NUL !in x && |text| + |x| + 1 <= 100
      modifies this`idx, curDir
      ensures Shows(text + x + "/")
    {
      var k := 0;
      while CharAt(x, k) != NUL
        invariant k <= |x| && Shows(text + x[..k])
        decreases |x| - k
      {
        curDir[idx] := x[k];
        idx := idx + 1;
        k := k + 1;
        assert text + x[..k] == text + x[..k - 1] + [x[k - 1]];
      }
      curDir[idx] := '/';
      idx := idx + 1;
      assert x[..k] == x;
    }

    /** Takes the last component off; the text before it ends in a slash. */
    method RemovePath(ghost text: string, ghost x: string)
      requires Shows(text + x + "/") && |text| > 0 && text[|text| - 1] == '/' && '/' !in x
      modifies this`idx, curDir
      ensures Shows(text)
    {
      idx := idx - 1;
      curDir[idx] := NUL;
      ghost var k := |x|;
      assert text + x[..k] == text + x;
      LastCharacter(text, x, k);
      while curDir[idx - 1] != '/'
        invariant 0 <= k <= |x| && Shows(text + x[..k]) && (k == 0 <==> (text + x[..k])[idx - 1] == '/')
        decreases k
      {
        idx := idx - 1;
        curDir[idx] := NUL;
        k := k - 1;
        assert text + x[..k] == (text + x[..k + 1])[..|text| + k];
        LastCharacter(text, x, k);
      }
      assert text + x[..0] == text;
    }

    /**
     * Makes c the current directory: entered under the name x, left for its parent by taking the
     * last name off, or, with x empty, only read again. The printed path goes from `text` to `next`.
     */
    method UpdateShellDir(c: nat, x: string, addDir: bool, ghost text: string, ghost next: string, ghost last: string)
      requires fs.Valid() && TableAt?(fs.vol, c) && Shows(text) && NUL !in x
      requires addDir && x == "" ==> next == text
      requires addDir && x != "" ==> next == text + x + "/" && |next| <= 100
      requires !addDir ==> text == next + last + "/" && '/' !in last && next != "" && next[|next| - 1] == '/'
      modifies this`idx, this`curCluster, this`cwdTable, curDir
      ensures Shows(next) && curCluster == c && cwdTable == TableAt(fs.vol, c)
    {
      cwdTable := fs.ReadTable(c);
      curCluster := c;
      if addDir {
        if CharAt(x, 0) == NUL {
          return;
        }
        AddPath(x, text);
      } else {
        RemovePath(next, last);
      }
    }

    /** One turn of the walk: looks the name up and moves there if it stands for a folder. */
    method Visit(x: string) returns (c: nat)
      requires Valid() && |Rendered(trail)| + |x| + 1 <= 100
      requires NamesFolder(fs.vol, curCluster, x) || NamesNothing(fs.vol, curCluster, x)
      modifies this`idx, this`curCluster, this`cwdTable, this`trail, curDir, fs`dirTable
      ensures Valid() && trail == if NamesFolder(fs.vol, old(curCluster), x) then Into(old(trail), x) else old(trail)
      ensures c == if NamesFolder(fs.vol, old(curCluster), x) then curCluster else NOT_FOUND
      ensures NamesFolder(fs.vol, old(curCluster), x) ==> c != NOT_FOUND
    {
      hide Resolve, TrailOk, NamesFolder, NamesNothing, Rendered, KeyOf, Inv, TableIn, Bytes, Image;
      ghost var v, before, from := fs.vol, trail, curCluster;
      c := fs.FindClusterOf(Request(KeyOf(x), curCluster, 0, []));
      LookedUp(v, before, x, c);
      if c != NOT_FOUND {
        trail := Into(before, x);
        UpdateShellDir(c, x, true, Rendered(before), Rendered(trail), x);
      }
    }

    /**
     * Enters the folders of a path one after the other. The last one may be missing: then the
     * shell stays in the one before and NOT_FOUND comes back.
     */
    method GetLastCluster(path: string) returns (last: nat)
      requires Valid() && NUL !in path && Walkable(fs.vol, trail, Components(path, 0))
      requires |Rendered(trail)| + |path| + 1 <= 100
      modifies this`idx, this`curCluster, this`cwdTable, this`trail, curDir, fs`dirTable
      ensures Valid() && trail == Reached(fs.vol, old(trail), Components(path, 0))
      ensures last == if Missing(fs.vol, old(trail), Components(path, 0)) then NOT_FOUND else curCluster
    {
      hide Resolve, TrailOk, NamesFolder, NamesNothing, KeyOf, Inv, Reached, Missing, Components, Ahead, Rendered;
      hide Walkable, Heading, Image, Bytes, ComponentEnd, Shows, At, Fat32.Valid;
      ghost var v, before, all, rest := fs.vol, trail, Components(path, 0), Components(path, 0);
      last := curCluster;
      var n := CountPath(path);
      var dir: string, at: nat := GetDir(path, 0);
      AheadFirst(path, dir, at, 100 - |Rendered(trail)|);
      SetOut(v, before, all);
      for i := 0 to n
        invariant Valid() && |rest| == n - i
        invariant i < n ==> Heading(v, before, all, trail, rest) && Ahead(path, rest, dir, at, 100 - |Rendered(trail)|)
        invariant i == n ==> trail == Reached(v, before, all)
        invariant i == n ==> last == if Missing(v, before, all) then NOT_FOUND else curCluster
      {
        last, dir, at := Turn(path, dir, at, rest, before, all);
        rest := rest[1..];
      }
    }

    /** The body of the walk's loop. */
    method Turn(path: string, x: string, at: nat, ghost rest: seq<string>, ghost start: Trail, ghost all: seq<string>)
      returns (last: nat, x': string, at': nat)
      requires Valid() && NUL !in path
      requires Heading(fs.vol, start, all, trail, rest) && Ahead(path, rest, x, at, 100 - |Rendered(trail)|)
      modifies this`idx, this`curCluster, this`cwdTable, this`trail, curDir, fs`dirTable
      ensures Valid()
      ensures |rest| > 1 ==>
        Heading(fs.vol, start, all, trail, rest[1..]) && Ahead(path, rest[1..], x', at', 100 - |Rendered(trail)|)
      ensures |rest| == 1 ==>
        trail == Reached(fs.vol, start, all) && last == if Missing(fs.vol, start, all) then NOT_FOUND else curCluster
    {
      hide Resolve, TrailOk, NamesFolder, NamesNothing, KeyOf, Inv, Reached, Missing, Components, Ahead, Rendered;
      hide Walkable, Heading, Image, Bytes, Shows, At, Fat32.Valid;
      ghost var v, from := fs.vol, trail;
      AheadFits(path, rest, x, at, 100 - |Rendered(from)|);
      WalkOn(v, start, all, from, rest, if NamesFolder(v, curCluster, x) then Into(from, x) else from);
      last := Visit(x);
      x', at' := GetDir(path, at);
      if |rest| > 1 {
        AheadNext(path, rest, x, at, 100 - |Rendered(from)|, x');
      }
    }

    /** `cd` with its one argument. */
    method Cd(path: string) returns (reply: Reply)
      requires Valid()
      requires Followed(path) ==>
        NUL !in path && Walkable(fs.vol, trail, Components(path, 0)) && |Rendered(trail)| + |path| + 1 <= 100
      modifies this`idx, this`curCluster, this`cwdTable, this`trail, curDir, fs`dirTable
      ensures Valid()
      ensures path == "" ==> trail == old(trail) && reply == MissingArgument
      ensures path == ".." ==>
        if old(trail) == Top then trail == Top && reply == AlreadyInRoot
        else trail == old(trail).front && reply == Quiet
      ensures Followed(path) ==>
        && trail == Reached(fs.vol, old(trail), Components(path, 0))
        && reply == if Missing(fs.vol, old(trail), Components(path, 0)) then PathNotValid else Quiet
      ensures Followed(path) && reply == Quiet ==> curDir[..idx] == old(curDir[..idx]) + path + "/"
      ensures path == ".." && reply == Quiet ==>
        && curCluster == Parent(fs.vol, old(curCluster))
        && exists x :: '/' !in x && old(curDir[..idx]) == curDir[..idx] + x + "/"
    {
      hide Resolve, TrailOk, NamesFolder, KeyOf, Inv, Walkable, Reached, Missing, Components, Rendered;
      ghost var v, before := fs.vol, trail;
      TrailLeadsToDir(v, before);
      if path == "" {
        return MissingArgument;
      }
      if path == ".." {
        if curCluster == ROOT_CLUSTER {
          return AlreadyInRoot;
        }
        var parent := cwdTable[1].cluster;
        OwnParent(v, curCluster);
        Left(v, before);
        trail := before.front;
        UpdateShellDir(parent, "", false, Rendered(before), Rendered(trail), before.name);
        assert '/' !in before.name && old(curDir[..idx]) == curDir[..idx] + before.name + "/";
        return Quiet;
      }
      var last := GetLastCluster(path);
      reply := if last == NOT_FOUND then PathNotValid else Quiet;
      CurrentIsFound(v);
      if reply == Quiet {
        FollowedPath(v, before, path);
      }
    }

    lemma CurrentIsFound(v: Volume)
      requires IsDir(v, curCluster)
      ensures curCluster != NOT_FOUND
    {
    }

    /** `cd x` and then `cd ..` leave the printed path, the cluster and its table as they were. */
    method CdAndBack(x: string)
      requires Valid() && NamesFolder(fs.vol, curCluster, x) && Followed(x) && |Rendered(trail)| + |x| + 1 <= 100
      modifies this`idx, this`curCluster, this`cwdTable, this`trail, curDir, fs`dirTable
      ensures Valid() && curDir[..] == old(curDir[..]) && idx == old(idx)
      ensures curCluster == old(curCluster) && cwdTable == old(cwdTable) && trail == old(trail)
    {
      hide Resolve, TrailOk, NamesFolder, KeyOf, Inv, Walkable, Reached, Missing, Components, Rendered, Image, Bytes;
      ghost var shown := curDir[..];
      OneComponent(fs.vol, trail, x);
      var reply := Cd(x);
      reply := Cd("..");
      assert curDir[..] == shown;
    }
  }
}
