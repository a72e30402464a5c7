/** Mapping a client's path to an absolute one: a C string edited in place, component by
    component, against a stack machine over the split path. */
module PathMapper {
  import Bytes

  const NUL: char := '\0'

  // ------------------------------------------------------------ stack machine

  /** A directory name: not empty, no slash, neither dot nor dot-dot. */
  predicate Name(c: string) {
    c != "" && c != "." && c != ".." && '/' !in c && NUL !in c
  }

  ghost predicate Names(stack: seq<string>) {
    forall i :: 0 <= i < |stack| ==> Name(stack[i])
  }

  function Resolve(stack: seq<string>, c: string): seq<string> {
    if c == "" || c == "." then stack
    else if c == ".." then if stack == [] then [] else stack[..|stack| - 1]
    else stack + [c]
  }

  function ResolveAll(stack: seq<string>, cs: seq<string>): seq<string> {
    if cs == [] then stack
    else Resolve(ResolveAll(stack, cs[..|cs| - 1]), cs[|cs| - 1])
  }

  lemma {:induction false} ResolveConcat(stack: seq<string>, cs: seq<string>, ds: seq<string>)
    ensures ResolveAll(stack, cs + ds) == ResolveAll(ResolveAll(stack, cs), ds)
    decreases |ds|
  {
    if ds == [] {
      assert cs + ds == cs;
    } else {
      assert (cs + ds)[..|cs + ds| - 1] == cs + ds[..|ds| - 1];
      ResolveConcat(stack, cs, ds[..|ds| - 1]);
    }
  }

  /** Wherever they stand, an empty component and a dot change nothing, and a name followed by a
      dot-dot cancels; a dot-dot at the root stays there. */
  lemma ResolveLaws(stack: seq<string>, cs: seq<string>, ds: seq<string>, name: string)
    requires Name(name)
    ensures ResolveAll(stack, cs + [""] + ds) == ResolveAll(stack, cs + ["."] + ds) == ResolveAll(stack, cs + ds)
    ensures ResolveAll(stack, cs + [name, ".."] + ds) == ResolveAll(stack, cs + ds)
    ensures ResolveAll([], [".."] + ds) == ResolveAll([], ds)
    ensures ResolveAll(stack, cs + [name]) == ResolveAll(stack, cs) + [name]
  {
    var front := ResolveAll(stack, cs);
    ResolveConcat(stack, cs, ds);
    ResolveOne(stack, cs, "");
    ResolveOne(stack, cs, ".");
    ResolveOne(stack, cs, name);
    ResolveOne(stack, cs + [name], "..");
    ResolveOne([], [], "..");
    assert cs + [name, ".."] == cs + [name] + [".."] && [] + [".."] == [".."];
    assert (front + [name])[..|front|] == front;
    ResolveConcat(stack, cs + [""], ds);
    ResolveConcat(stack, cs + ["."], ds);
    ResolveConcat(stack, cs + [name, ".."], ds);
    ResolveConcat([], [".."], ds);
  }

  lemma ResolveOne(stack: seq<string>, cs: seq<string>, c: string)
    ensures ResolveAll(stack, cs + [c]) == Resolve(ResolveAll(stack, cs), c)
  {
    assert (cs + [c])[..|cs|] == cs;
  }

  /** The pieces of a path between its slashes. */
  function Split(path: string): (cs: seq<string>)
    ensures |cs| >= 1
  {
    if '/' in path then
      var k := FirstSlash(path);
      [path[..k]] + Split(path[k + 1..])
    else [path]
  }

  function FirstSlash(path: string): (k: nat)
    requires '/' in path
    ensures k < |path| && path[k] == '/' && '/' !in path[..k]
  {
    if path[0] == '/' then 0
    else
      var k := FirstSlash(path[1..]);
      assert path[..k + 1] == [path[0]] + path[1..][..k];
      k + 1
  }

  // ------------------------------------------------------------ text

  /** The text of a stack below the root, each name after a slash. */
  function Joined(stack: seq<string>): string {
    if stack == [] then "" else Joined(stack[..|stack| - 1]) + "/" + stack[|stack| - 1]
  }

  /** A directory: its names, and whether the text carries a closing slash. */
  datatype Directory = Directory(names: seq<string>, closed: bool) {
    ghost predicate Valid() {
      Names(names) && (names == [] ==> !closed)
    }

    function Text(): string {
      if names == [] then "/" else Joined(names) + if closed then "/" else ""
    }

    /** One component: the stack machine's step on the names; an empty component closes the
        text, a name or a dot-dot opens it. */
    function Enter(c: string): Directory {
      var stack := Resolve(names, c);
      Directory(stack, if c == "." || (c == ".." && names == []) then closed else c == "" && stack != [])
    }
  }

  function EnterAll(d: Directory, cs: seq<string>): Directory {
    if cs == [] then d
    else EnterAll(d, cs[..|cs| - 1]).Enter(cs[|cs| - 1])
  }

  /** The names follow the stack machine alone. */
  lemma {:induction false} EnterAllNames(d: Directory, cs: seq<string>)
    ensures EnterAll(d, cs).names == ResolveAll(d.names, cs)
  {
    if cs != [] {
      EnterAllNames(d, cs[..|cs| - 1]);
    }
  }

  lemma {:induction false} JoinedShape(stack: seq<string>)
    requires Names(stack) && stack != []
    ensures var t := Joined(stack);
            |t| >= 2 && t[0] == '/' && t[|t| - 1] != '/' && NUL !in t
            && forall i :: 0 <= i < |t| - 1 ==> t[i] != '/' || t[i + 1] != '/'
  {
    var n := |stack| - 1;
    var front, last := Joined(stack[..n]), stack[n];
    assert Name(last);
    if n > 0 {
      JoinedShape(stack[..n]);
    }
    var t := Joined(stack);
    assert t == front + "/" + last;
    forall i | 0 <= i < |t| - 1
      ensures t[i] != '/' || t[i + 1] != '/'
    {
      if i > |front| {
        assert t[i] == last[i - |front| - 1];
      } else if i == |front| {
        assert t[i + 1] == last[0];
      } else if i + 1 == |front| {
        assert t[i] == front[i];
      }
    }
  }

  /** Every directory's text is absolute, has no doubled slash and ends the string. */
  lemma TextShape(d: Directory)
    requires d.Valid()
    ensures var t := d.Text();
            |t| >= 1 && t[0] == '/' && NUL !in t
            && (forall i :: 0 <= i < |t| - 1 ==> t[i] != '/' || t[i + 1] != '/')
            && (t == "/" <==> d.names == [])
            && (t[|t| - 1] == '/' <==> d.closed || d.names == [])
  {
    if d.names != [] {
      JoinedShape(d.names);
    }
  }

  // ------------------------------------------------------------ reading back

  /** The names a text denotes: its nonempty pieces. */
  function Denoted(cs: seq<string>): seq<string> {
    if cs == [] then []
    else (if cs[0] == "" then [] else [cs[0]]) + Denoted(cs[1..])
  }

  lemma {:induction false} FirstSlashIs(path: string, k: nat)
    requires k < |path| && path[k] == '/' && '/' !in path[..k]
    ensures '/' in path && FirstSlash(path) == k
  {
    var j := FirstSlash(path);
    assert forall i :: 0 <= i < k ==> path[..k][i] == path[i];
    assert forall i :: 0 <= i < j ==> path[..j][i] == path[i];
  }

  ghost predicate FirstSlashAt(s: string, k: nat) {
    k < |s| && s[k] == '/' && '/' !in s[..k]
  }

  lemma SplitFirst(s: string, k: nat)
    requires FirstSlashAt(s, k)
    ensures Split(s) == [s[..k]] + Split(s[k + 1..])
  {
    FirstSlashIs(s, k);
  }

  /** Without a slash there is one piece. */
  lemma SplitWhole(s: string)
    requires '/' !in s
    ensures Split(s) == [s]
  {
  }

  lemma {:induction false} SplitConcat(s: string, t: string)
    ensures Split(s + "/" + t) == Split(s) + Split(t)
    decreases |s|
  {
    hide Split, FirstSlash;
    var whole := s + "/" + t;
    if '/' in s {
      var k := FirstSlash(s);
      var rest := s[k + 1..];
      assert whole[..k] == s[..k] && whole[k + 1..] == rest + "/" + t;
      SplitConcat(rest, t);
      SplitFirst(s, k);
      SplitFirst(whole, k);
      Bytes.Reassociate([s[..k]], Split(rest), Split(t));
    } else {
      assert whole[..|s|] == s && whole[|s| + 1..] == t;
      SplitFirst(whole, |s|);
      SplitWhole(s);
    }
  }

  lemma {:induction false} DenotedConcat(a: seq<string>, b: seq<string>)
    ensures Denoted(a + b) == Denoted(a) + Denoted(b)
  {
    if a == [] {
      assert a + b == b;
    } else {
      DenotedConcat(a[1..], b);
      assert (a + b)[1..] == a[1..] + b && (a + b)[0] == a[0];
      Bytes.Reassociate(if a[0] == "" then [] else [a[0]], Denoted(a[1..]), Denoted(b));
    }
  }

  lemma DenotesMore(t: string, name: string)
    requires Name(name)
    ensures Denoted(Split(t + "/" + name)) == Denoted(Split(t)) + [name]
  {
    assert Denoted([name]) == [name];
    hide Denoted, Split;
    SplitConcat(t, name);
    SplitWhole(name);
    DenotedConcat(Split(t), [name]);
  }

  lemma {:induction false} JoinedDenotes(stack: seq<string>)
    requires Names(stack)
    ensures Denoted(Split(Joined(stack))) == stack
  {
    if stack == [] {
      SplitWhole("");
    } else {
      var n := |stack| - 1;
      JoinedDenotes(stack[..n]);
      DenotesMore(Joined(stack[..n]), stack[n]);
      hide Denoted, Split;
      assert stack == stack[..n] + [stack[n]];
    }
  }

  /** Reading a directory's text back gives its names. */
  lemma TextDenotes(d: Directory)
    requires d.Valid()
    ensures Denoted(Split(d.Text())) == d.names
  {
    JoinedDenotes(d.names);
    if d.names == [] {
      ClosingDenotes("");
      assert "" + "/" == "/";
    } else if d.closed {
      ClosingDenotes(Joined(d.names));
    } else {
      assert Joined(d.names) + "" == Joined(d.names);
    }
  }

  /** A closing slash adds no name. */
  lemma ClosingDenotes(t: string)
    ensures Denoted(Split(t + "/")) == Denoted(Split(t))
  {
    assert t + "/" + "" == t + "/";
    SplitConcat(t, "");
    DenotedConcat(Split(t), [""]);
  }

  // ------------------------------------------------------------ C strings

  /** buf holds the C string s. */
  ghost predicate Holds(buf: array<char>, s: string)
    reads buf
  {
    |s| < buf.Length && buf[|s|] == NUL && forall i :: 0 <= i < |s| ==> buf[i] == s[i] != NUL
  }

  method StrLen(buf: array<char>, ghost s: string) returns (n: nat)
    requires Holds(buf, s)
    ensures n == |s|
  {
    n := 0;
    while buf[n] != NUL
      invariant n <= |s|
      decreases |s| - n
    {
      n := n + 1;
    }
  }

  method StrCat(buf: array<char>, ghost s: string, t: string)
    requires Holds(buf, s) && NUL !in t && |s| + |t| < buf.Length
    modifies buf
    ensures Holds(buf, s + t)
  {
    var n := StrLen(buf, s);
    for i := 0 to |t|
      invariant forall j :: 0 <= j < n + i ==> buf[j] == (s + t)[j]
    {
      buf[n + i] := t[i];
    }
    buf[n + |t|] := NUL;
  }

  method CutAt(buf: array<char>, ghost s: string, n: nat)
    requires Holds(buf, s) && n <= |s|
    modifies buf
    ensures Holds(buf, s[..n])
  {
    buf[n] := NUL;
  }

  /** The position of the first slash at or after a position. */
  method StrChr(buf: array<char>, ghost s: string, from: nat) returns (found: bool, k: nat)
    requires Holds(buf, s) && from <= |s|
    ensures found <==> '/' in s[from..]
    ensures found ==> from <= k < |s| && s[k] == '/' && '/' !in s[from..k]
  {
    k := from;
    while buf[k] != NUL && buf[k] != '/'
      invariant from <= k <= |s| && '/' !in s[from..k]
      decreases |s| - k
    {
      assert s[from..k + 1] == s[from..k] + [s[k]];
      k := k + 1;
    }
    found := buf[k] == '/';
    if found {
      assert s[k] == '/' && s[from..][k - from] == '/';
    }
  }

  /** cutto: the string moved down over its first n characters. */
  method CutTo(str: array<char>, ghost s: string, n: nat)
    requires Holds(str, s) && n <= |s|
    modifies str
    ensures Holds(str, s[n..])
  {
    var len := StrLen(str, s);
    for i := 0 to len - n + 1
      invariant forall j :: 0 <= j < i ==> str[j] == old(str[j + n])
      invariant forall j :: i <= j < str.Length ==> str[j] == old(str[j])
    {
      str[i] := str[i + n];
    }
  }

  /** Where the last component starts. */
  method AfterLastSlash(buf: array<char>, ghost s: string) returns (at: nat)
    requires Holds(buf, s)
    ensures at <= |s| && '/' !in s[at..] && (at == 0 || s[at - 1] == '/')
  {
    at := 0;
    var found, k := StrChr(buf, s, 0);
    while found
      invariant at <= |s| && (at == 0 || s[at - 1] == '/')
      invariant found <==> '/' in s[at..]
      invariant found ==> at <= k < |s| && s[k] == '/'
      decreases |s| - at
    {
      at := k + 1;
      found, k := StrChr(buf, s, at);
    }
  }

  // ------------------------------------------------------------ appendpath

  /** A name or an empty component: a slash unless one is there, then the text. */
  lemma EnterNext(d: Directory, c: string)
    requires d.Valid() && NUL !in c && '/' !in c && c != "." && c != ".."
    ensures d.Enter(c).Text() == d.Text() + (if d.closed || d.names == [] then "" else "/") + c
  {
    if c != "" {
      JoinedMore(d.names, c);
      hide Joined;
      if d.names == [] {
        assert "" + "/" + c == "/" + "" + c;
      } else if d.closed {
        assert (Joined(d.names) + "/") + "" == Joined(d.names) + "/";
      } else {
        assert Joined(d.names) + "" == Joined(d.names);
      }
    }
  }

  lemma JoinedMore(names: seq<string>, c: string)
    ensures Joined(names + [c]) == Joined(names) + "/" + c
    ensures Joined([]) == ""
  {
    assert (names + [c])[..|names|] == names;
  }

  lemma EnterValid(d: Directory, c: string)
    requires d.Valid() && NUL !in c && '/' !in c
    ensures d.Enter(c).Valid()
    ensures |d.Enter(c).Text()| <= |d.Text()| + 1 + |c|
  {
    if c != "." && c != ".." {
      EnterNext(d, c);
    } else if d.names != [] {
      JoinedShape(d.names);
    }
  }

  /** Where dot-dot cuts. */
  lemma EnterParent(d: Directory, at: nat)
    requires d.Valid() && d.names != []
    requires at <= |Joined(d.names)| && '/' !in Joined(d.names)[at..] && (at == 0 || Joined(d.names)[at - 1] == '/')
    ensures at >= 1
    ensures d.Enter("..").Text() == Joined(d.names)[..if at > 1 then at - 1 else 1]
    ensures Joined(d.names)[at - 1] == '/'
  {
    var n := |d.names| - 1;
    var front, last := Joined(d.names[..n]), d.names[n];
    assert Name(last) && Joined(d.names) == front + "/" + last;
    LastPiece(front, last, at);
    JoinedShape(d.names);
    assert Joined(d.names)[..1] == "/";
    if n > 0 {
      JoinedShape(d.names[..n]);
    }
  }

  /** The last slash of a joined text. */
  lemma LastPiece(front: string, last: string, at: nat)
    requires '/' !in last
    requires var t := front + "/" + last; at <= |t| && '/' !in t[at..] && (at == 0 || t[at - 1] == '/')
    ensures at == |front| + 1 && (front + "/" + last)[..|front|] == front
  {
    var t := front + "/" + last;
    assert t[|front|] == '/';
    assert forall i :: at <= i < |t| ==> t[i] == t[at..][i - at];
    assert forall i :: |front| < i < |t| ==> t[i] == last[i - |front| - 1];
  }

  /** appendpath, in place. */
  method AppendPath(result: array<char>, ghost d: Directory, tmp: string)
    requires d.Valid() && Holds(result, d.Text()) && NUL !in tmp && '/' !in tmp
    requires |d.Text()| + 1 + |tmp| < result.Length
    modifies result
    ensures d.Enter(tmp).Valid() && Holds(result, d.Enter(tmp).Text())
  {
    EnterValid(d, tmp);
    if tmp == "." {
      return;
    }
    if tmp == ".." {
      ToParent(result, d);
    } else {
      Extend(result, d, tmp);
    }
  }

  method Extend(result: array<char>, ghost d: Directory, tmp: string)
    requires d.Valid() && Holds(result, d.Text()) && NUL !in tmp && '/' !in tmp && tmp != "." && tmp != ".."
    requires |d.Text()| + 1 + |tmp| < result.Length
    modifies result
    ensures Holds(result, d.Enter(tmp).Text())
  {
    ghost var text := d.Text();
    TextShape(d);
    EnterNext(d, tmp);
    var n := StrLen(result, text);
    if result[n - 1] != '/' {
      StrCat(result, text, "/");
      text := text + "/";
    }
    StrCat(result, text, tmp);
  }

  method ToParent(result: array<char>, ghost d: Directory)
    requires d.Valid() && Holds(result, d.Text())
    modifies result
    ensures Holds(result, d.Enter("..").Text())
  {
    TextShape(d);
    var n := StrLen(result, d.Text());
    if n == 1 && result[0] == '/' {
      return;
    }
    if result[n - 1] == '/' {
      CutAt(result, d.Text(), n - 1);
      assert d.Text()[..n - 1] == Joined(d.names);
    }
    CutLast(result, d);
  }

  method CutLast(result: array<char>, ghost d: Directory)
    requires d.Valid() && d.names != [] && Holds(result, Joined(d.names))
    modifies result
    ensures Holds(result, d.Enter("..").Text())
  {
    ghost var t := Joined(d.names);
    var at := AfterLastSlash(result, t);
    EnterParent(d, at);
    hide *;
    CutAt(result, t, at);
    if result[at - 1] == '/' && at > 1 {
      CutAt(result, t[..at], at - 1);
      assert t[..at][..at - 1] == t[..at - 1];
    }
  }

  // ------------------------------------------------------------ bftpd_cwd_mappath

  /** A clean absolute path: the text of some directory. */
  ghost predicate Clean(text: string) {
    exists d: Directory :: d.Valid() && d.Text() == text
  }

  /** The directory a clean text denotes is unique. */
  lemma CleanDenotes(text: string, d: Directory)
    requires d.Valid() && d.Text() == text
    ensures Clean(text) && d.names == Denoted(Split(text))
  {
    TextDenotes(d);
  }

  lemma EnterSnoc(d: Directory, cs: seq<string>, c: string)
    ensures EnterAll(d, cs + [c]) == EnterAll(d, cs).Enter(c)
  {
    assert (cs + [c])[..|cs|] == cs;
  }

  /** The first k characters of a C string, copied out. */
  method StrDup(buf: array<char>, ghost s: string, k: nat) returns (t: string)
    requires Holds(buf, s) && k <= |s|
    ensures t == s[..k]
  {
    t := buf[..k];
  }

  /** Copies a string into a new buffer, with its terminator. */
  method StrCpy(s: string, capacity: nat) returns (buf: array<char>)
    requires |s| < capacity && NUL !in s
    ensures fresh(buf) && buf.Length == capacity && Holds(buf, s)
  {
    buf := new char[capacity](_ => NUL);
    for i := 0 to |s|
      invariant forall j :: 0 <= j < i ==> buf[j] == s[j]
      invariant forall j :: i <= j < capacity ==> buf[j] == NUL
    {
      buf[i] := s[i];
    }
  }

  /** Mapping a path denotes the stack machine's result over the split path, from the root for
      an absolute path and from the current directory otherwise.  The text is again clean:
      absolute and without a doubled slash, and it fits the buffer. */
  method MapPath(cwd: string, path: string) returns (result: array<char>, ghost text: string)
    requires Clean(cwd) && NUL !in path
    ensures fresh(result) && Holds(result, text) && Clean(text)
    ensures Denoted(Split(text)) ==
      ResolveAll(if path != "" && path[0] == '/' then [] else Denoted(Split(cwd)), Split(path))
    ensures text[0..1] == "/" && (forall i :: 0 <= i < |text| - 1 ==> text[i] != '/' || text[i + 1] != '/')
    ensures |text| <= |cwd| + 1 + |path|
  {
    hide *;
    var absolute := path != "" && path[0] == '/';
    var origin := if absolute then "/" else cwd;
    ghost var start := StartOf(cwd, absolute);
    result := StrCpy(origin, |path| + |cwd| + 16);
    ghost var d := WalkPath(result, path, start, |cwd|);
    text := d.Text();
    EnterAllNames(start, Split(path));
    CleanDenotes(text, d);
    TextShape(d);
  }

  /** The directory the walk starts from. */
  lemma StartOf(cwd: string, absolute: bool) returns (start: Directory)
    requires Clean(cwd)
    ensures start.Valid() && start.Text() == (if absolute then "/" else cwd)
    ensures NUL !in start.Text() && |start.Text()| <= |cwd|
    ensures start.names == if absolute then [] else Denoted(Split(cwd))
  {
    var d: Directory :| d.Valid() && d.Text() == cwd;
    CleanDenotes(cwd, d);
    TextShape(d);
    start := if absolute then Directory([], false) else d;
  }

  /** The splitting loop: each piece before a slash is appended and cut from the copy. */
  method WalkPath(result: array<char>, path: string, ghost start: Directory, ghost room: nat)
    returns (ghost d: Directory)
    requires NUL !in path && start.Valid() && Holds(result, start.Text()) && |start.Text()| <= room
    requires result.Length == |path| + room + 16
    modifies result
    ensures d == EnterAll(start, Split(path)) && d.Valid() && Holds(result, d.Text())
    ensures |d.Text()| <= room + 1 + |path|
  {
    var path2 := StrCpy(path, |path| + 1);
    ghost var rest, done := path, [];
    d := start;
    assert EnterAll(start, []) == start && [] + Split(path) == Split(path);
    hide *;
    var found, k := FindSlash(path2, rest);
    while found
      invariant fresh(path2) && Holds(path2, rest) && NUL !in rest
      invariant Holds(result, d.Text()) && d.Valid() && d == EnterAll(start, done)
      invariant Split(path) == done + Split(rest)
      invariant |d.Text()| + |rest| <= room + |path|
      invariant if found then FirstSlashAt(rest, k) else '/' !in rest
      decreases |rest|
    {
      d, rest, done := OnePiece(result, path2, d, rest, k, done, start, path);
      found, k := FindSlash(path2, rest);
    }
    var n := StrLen(path2, rest);
    var last := StrDup(path2, rest, n);
    assert last == rest;
    AppendPath(result, d, last);
    EnterValid(d, last);
    SplitWhole(last);
    EnterSnoc(start, done, last);
    d := d.Enter(last);
  }

  method FindSlash(buf: array<char>, ghost s: string) returns (found: bool, k: nat)
    requires Holds(buf, s)
    ensures if found then FirstSlashAt(s, k) else '/' !in s
  {
    found, k := StrChr(buf, s, 0);
    assert s[0..] == s;
  }

  method OnePiece(result: array<char>, path2: array<char>, ghost d: Directory, ghost rest: string, k: nat,
                  ghost done: seq<string>, ghost start: Directory, ghost path: string)
    returns (ghost d': Directory, ghost rest': string, ghost done': seq<string>)
    requires result != path2 && Holds(path2, rest) && NUL !in rest
    requires d.Valid() && Holds(result, d.Text()) && d == EnterAll(start, done)
    requires FirstSlashAt(rest, k)
    requires Split(path) == done + Split(rest) && |d.Text()| + |rest| < result.Length
    modifies result, path2
    ensures Holds(path2, rest') && NUL !in rest' && |rest'| < |rest| && Holds(result, d'.Text()) && d'.Valid()
    ensures d' == EnterAll(start, done') && Split(path) == done' + Split(rest')
    ensures |d'.Text()| + |rest'| <= |d.Text()| + |rest|
  {
    assert k < |rest| && '/' !in rest[..k];
    hide *;
    var tmp := StrDup(path2, rest, k);
    CutTo(path2, rest, k + 1);
    rest' := rest[k + 1..];
    AppendPath(result, d, tmp);
    EnterValid(d, tmp);
    SplitFirst(rest, k);
    EnterSnoc(start, done, tmp);
    Bytes.Reassociate(done, [tmp], Split(rest'));
    d', done' := d.Enter(tmp), done + [tmp];
  }

  // ------------------------------------------------------------ the working directory

  /** The remembered directory: a chdir that the system accepts replaces it. */
  class WorkingDirectory {
    var cwd: string

    constructor (cwd: string)
      requires Clean(cwd)
      ensures this.cwd == cwd
    {
      this.cwd := cwd;
    }

    method Chdir(dir: string, accepted: bool)
      requires Clean(cwd) && NUL !in dir
      modifies this
      ensures Clean(cwd)
      ensures Denoted(Split(cwd)) ==
        if accepted
        then ResolveAll(if dir != "" && dir[0] == '/' then [] else old(Denoted(Split(cwd))), Split(dir))
        else old(Denoted(Split(cwd)))
    {
      var mapped, text := MapPath(cwd, dir);
      if accepted {
        var n := StrLen(mapped, text);
        cwd := mapped[..n];
        assert cwd == text;
      }
    }
  }
}
