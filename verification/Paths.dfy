/** Path normalisation: folding the components of a path over a stack, and parsing the result back. */
module Paths {

  const PATH_MAX: nat := 128

  // ----- components -----

  /** The position of the first character from `i` on that is not a slash. */
  function SkipSlashes(p: string, i: nat): (j: nat)
    requires i <= |p|
    ensures i <= j <= |p| && (j < |p| ==> p[j] != '/') && forall k | i <= k < j :: p[k] == '/'
    decreases |p| - i
  {
    if i < |p| && p[i] == '/' then SkipSlashes(p, i + 1) else i
  }

  /** The position of the first slash from `i` on, or the end. */
  function SkipName(p: string, i: nat): (j: nat)
    requires i <= |p|
    ensures i <= j <= |p| && (j < |p| ==> p[j] == '/') && forall k | i <= k < j :: p[k] != '/'
    decreases |p| - i
  {
    if i < |p| && p[i] != '/' then SkipName(p, i + 1) else i
  }

  /** The components of a path from position `i` on. */
  function Split(p: string, i: nat): seq<string>
    requires i <= |p|
    decreases |p| - i
  {
    var s := SkipSlashes(p, i);
    if s == |p| then [] else
    var e := SkipName(p, s);
    [p[s..e]] + Split(p, e)
  }

  /** `.` stays, `..` goes up (and stays at the root), anything else goes down. */
  function Enter(stack: seq<string>, c: string): seq<string> {
    if c == "." then stack
    else if c == ".." then (if stack == [] then [] else stack[..|stack| - 1])
    else stack + [c]
  }

  function Fold(stack: seq<string>, cs: seq<string>): seq<string>
    decreases |cs|
  {
    if cs == [] then stack else Fold(Enter(stack, cs[0]), cs[1..])
  }

  function Body(stack: seq<string>): string {
    if stack == [] then "" else "/" + stack[0] + Body(stack[1..])
  }

  /** A stack as an absolute path. */
  function Print(stack: seq<string>): string {
    if stack == [] then "/" else Body(stack)
  }

  /** What normalisation should give. */
  function Norm(p: string): string {
    Print(Fold([], Split(p, 0)))
  }

  ghost predicate Name(c: string) {
    c != "" && '/' !in c
  }

  ghost predicate Names(stack: seq<string>) {
    forall i | 0 <= i < |stack| :: Name(stack[i])
  }

  /** A normalised stack: proper names, none of them special. */
  ghost predicate Plain(stack: seq<string>) {
    Names(stack) && forall i | 0 <= i < |stack| :: stack[i] != "." && stack[i] != ".."
  }

  lemma {:induction false} SplitNames(p: string, i: nat)
    requires i <= |p|
    ensures Names(Split(p, i))
    decreases |p| - i
  {
    var s := SkipSlashes(p, i);
    if s < |p| {
      var e := SkipName(p, s);
      SplitNames(p, e);
      assert Name(p[s..e]);
    }
  }

  lemma {:induction false} FoldPlain(stack: seq<string>, cs: seq<string>)
    requires Plain(stack) && Names(cs)
    ensures Plain(Fold(stack, cs))
    decreases |cs|
  {
    if cs != [] { FoldPlain(Enter(stack, cs[0]), cs[1..]); }
  }

  lemma {:induction false} FoldSame(stack: seq<string>, cs: seq<string>)
    requires Plain(cs)
    ensures Fold(stack, cs) == stack + cs
    decreases |cs|
  {
    if cs == [] {
      assert stack + cs == stack;
    } else {
      FoldSame(stack + [cs[0]], cs[1..]);
      assert stack + [cs[0]] + cs[1..] == stack + cs;
    }
  }

  // ----- printing and parsing back -----

  lemma {:induction false} BodyPush(stack: seq<string>, c: string)
    ensures Body(stack + [c]) == Body(stack) + "/" + c
  {
    if stack == [] {
      assert stack + [c] == [c];
      assert [c][1..] == [];
      assert Body([c]) == "/" + c + Body([]);
    } else {
      assert (stack + [c])[1..] == stack[1..] + [c];
      BodyPush(stack[1..], c);
      assert (stack + [c])[0] == stack[0];
      calc {
        Body(stack + [c]);
        "/" + stack[0] + Body(stack[1..] + [c]);
        "/" + stack[0] + (Body(stack[1..]) + "/" + c);
        Body(stack) + "/" + c;
      }
    }
  }

  lemma SplitNext(p: string, i: nat, s: nat, e: nat)
    requires i <= |p| && s == SkipSlashes(p, i) && s < |p| && e == SkipName(p, s)
    ensures e > i && Split(p, i) == [p[s..e]] + Split(p, e)
  {
  }

  /** `q` from `j` on reads the same as `p` from `i` on. */
  ghost predicate SameTail(p: string, i: nat, q: string, j: nat) {
    i <= |p| && j <= |q| && |p| - i == |q| - j && forall k {:trigger p[k]} | i <= k < |p| :: p[k] == q[k - i + j]
  }

  /** Splitting looks only at what is left. */
  lemma {:induction false} SplitTail(p: string, i: nat, q: string, j: nat)
    requires SameTail(p, i, q, j)
    ensures Split(q, j) == Split(p, i)
    decreases |p| - i
  {
    SlashTail(p, i, q, j);
    var s, t := SkipSlashes(p, i), SkipSlashes(q, j);
    if s < |p| {
      NameTail(p, s, q, t);
      var e, f := SkipName(p, s), SkipName(q, t);
      SplitNext(p, i, s, e);
      SplitNext(q, j, t, f);
      SplitTail(p, e, q, f);
      SameSlice(p, s, e, q, t, f);
    }
  }

  lemma SameSlice(p: string, s: nat, e: nat, q: string, t: nat, f: nat)
    requires SameTail(p, s, q, t) && s <= e <= |p| && f - t == e - s && f <= |q|
    ensures q[t..f] == p[s..e]
  {
    forall k | 0 <= k < e - s ensures q[t..f][k] == p[s..e][k] { assert p[s + k] == q[s + k - s + t]; }
  }

  lemma {:induction false} SlashTail(p: string, i: nat, q: string, j: nat)
    requires SameTail(p, i, q, j)
    ensures SkipSlashes(q, j) - j == SkipSlashes(p, i) - i && SameTail(p, SkipSlashes(p, i), q, SkipSlashes(q, j))
    decreases |p| - i
  {
    if i < |p| {
      assert p[i] == q[j];
      if p[i] == '/' { SlashTail(p, i + 1, q, j + 1); }
    }
  }

  lemma {:induction false} NameTail(p: string, i: nat, q: string, j: nat)
    requires SameTail(p, i, q, j)
    ensures SkipName(q, j) - j == SkipName(p, i) - i && SameTail(p, SkipName(p, i), q, SkipName(q, j))
    decreases |p| - i
  {
    if i < |p| {
      assert p[i] == q[j];
      if p[i] != '/' { NameTail(p, i + 1, q, j + 1); }
    }
  }

  /** The first component of a printed stack. */
  lemma FirstName(p: string, c: string, more: seq<string>)
    requires p == "/" + c + Body(more) && Name(c)
    ensures SkipSlashes(p, 0) == 1 && SkipName(p, 1) == 1 + |c| && p[1..1 + |c|] == c
    ensures SameTail(Body(more), 0, p, 1 + |c|)
  {
    assert p[0] == '/' && p[1] == c[0];
    assert SkipSlashes(p, 1) == 1;
    assert p[1 + |c|..] == Body(more);
    NameEnds(p, 1, 1 + |c|, more);
  }

  /** A printed stack parses back to the stack. */
  lemma {:induction false} SplitBody(stack: seq<string>)
    requires Names(stack)
    ensures Split(Body(stack), 0) == stack
  {
    if stack != [] {
      assert Name(stack[0]);
      SplitBody(stack[1..]);
      SplitFirst(Body(stack), stack[0], stack[1..]);
      assert [stack[0]] + stack[1..] == stack;
    }
  }

  lemma SplitFirst(p: string, c: string, more: seq<string>)
    requires p == "/" + c + Body(more) && Name(c)
    ensures Split(p, 0) == [c] + Split(Body(more), 0)
  {
    FirstName(p, c, more);
    SplitNext(p, 0, 1, 1 + |c|);
    SplitTail(Body(more), 0, p, 1 + |c|);
  }

  lemma NameEnds(p: string, s: nat, e: nat, more: seq<string>)
    requires s <= e <= |p| && (forall k | s <= k < e :: p[k] != '/') && p[e..] == Body(more)
    ensures SkipName(p, s) == e
    decreases e - s
  {
    if s < e {
      NameEnds(p, s + 1, e, more);
    } else if e < |p| {
      assert p[e] == p[e..][0];
    }
  }

  lemma SplitPrint(stack: seq<string>)
    requires Names(stack)
    ensures Split(Print(stack), 0) == stack
  {
    if stack == [] {
      assert SkipSlashes("/", 0) == 1;
    } else {
      SplitBody(stack);
    }
  }

  /** The printed form parses back to exactly the folded stack, and normalising again changes nothing. */
  lemma NormTwice(p: string)
    ensures Split(Norm(p), 0) == Fold([], Split(p, 0)) && Norm(Norm(p)) == Norm(p)
  {
    var stack := Fold([], Split(p, 0));
    SplitNames(p, 0);
    FoldPlain([], Split(p, 0));
    SplitPrint(stack);
    FoldSame([], stack);
    assert [] + stack == stack;
  }

  // ----- the laws of normalisation, on the paths alone -----

  lemma {:induction false} SlashesEnd(p: string, i: nat, j: nat)
    requires i <= j <= |p| && (forall k | i <= k < j :: p[k] == '/') && (j < |p| ==> p[j] != '/')
    ensures SkipSlashes(p, i) == j
    decreases j - i
  {
    if i < j { SlashesEnd(p, i + 1, j); }
  }

  lemma {:induction false} NameEndsAt(p: string, i: nat, j: nat)
    requires i <= j <= |p| && (forall k | i <= k < j :: p[k] != '/') && (j < |p| ==> p[j] == '/')
    ensures SkipName(p, i) == j
    decreases j - i
  {
    if i < j { NameEndsAt(p, i + 1, j); }
  }

  lemma {:induction false} SlashesPast(p: string, i: nat, j: nat)
    requires i <= j <= |p| && forall k | i <= k < j :: p[k] == '/'
    ensures SkipSlashes(p, i) == SkipSlashes(p, j)
    decreases j - i
  {
    if i < j { SlashesPast(p, i + 1, j); }
  }

  /** Slashes in front leave the same components. */
  lemma SplitPast(p: string, i: nat, j: nat)
    requires i <= j <= |p| && forall k | i <= k < j :: p[k] == '/'
    ensures Split(p, i) == Split(p, j)
  {
    SlashesPast(p, i, j);
    SplitFrom(p, i, SkipSlashes(p, i));
    SplitFrom(p, j, SkipSlashes(p, i));
  }

  lemma JoinEnd(p: string, q: string, i: nat)
    requires i <= |p| && SkipSlashes(p, i) == |p|
    ensures Split(p, i) == [] && Split(p + q, i) == Split(q, 0)
  {
    SplitPast(p + q, i, |p|);
    SplitTail(q, 0, p + q, |p|);
  }

  /** The components of a path with another behind it. */
  lemma {:induction false} SplitJoin(p: string, q: string, i: nat)
    requires i <= |p| && (q != "" ==> q[0] == '/')
    ensures Split(p + q, i) == Split(p, i) + Split(q, 0)
    decreases |p| - i
  {
    var all, s := p + q, SkipSlashes(p, i);
    if s == |p| {
      JoinEnd(p, q, i);
    } else {
      var e := SkipName(p, s);
      JoinEnds(p, q, i, s, e);
      SplitJoin(p, q, e);
      JoinNext(p, all, i, s, e, Split(q, 0));
    }
  }

  lemma JoinEnds(p: string, q: string, i: nat, s: nat, e: nat)
    requires i <= |p| && s == SkipSlashes(p, i) < |p| && e == SkipName(p, s) && (q != "" ==> q[0] == '/')
    ensures SkipSlashes(p + q, i) == s && SkipName(p + q, s) == e && (p + q)[s..e] == p[s..e]
  {
    SlashesEnd(p + q, i, s);
    NameEndsAt(p + q, s, e);
  }

  lemma JoinNext(p: string, all: string, i: nat, s: nat, e: nat, more: seq<string>)
    requires i <= |p| <= |all| && s == SkipSlashes(p, i) == SkipSlashes(all, i) < |p|
    requires e == SkipName(p, s) == SkipName(all, s) && all[s..e] == p[s..e] && Split(all, e) == Split(p, e) + more
    ensures Split(all, i) == Split(p, i) + more
  {
    SplitNext(p, i, s, e);
    SplitNext(all, i, s, e);
    FirstThen(p[s..e], Split(p, e), more);
  }

  lemma FirstThen(c: string, a: seq<string>, b: seq<string>)
    ensures [c] + (a + b) == ([c] + a) + b
  {
  }

  lemma {:induction false} FoldJoin(stack: seq<string>, a: seq<string>, b: seq<string>)
    ensures Fold(stack, a + b) == Fold(Fold(stack, a), b)
    decreases |a|
  {
    if a == [] {
      assert a + b == b;
    } else {
      assert (a + b)[1..] == a[1..] + b;
      FoldJoin(Enter(stack, a[0]), a[1..], b);
    }
  }

  /** Names put behind a path are entered one after the other. */
  lemma NormBehind(p: string, q: string, cs: seq<string>)
    requires Names(cs) && q == p + Body(cs)
    ensures Norm(q) == Print(Fold(Fold([], Split(p, 0)), cs)) && Plain(Fold([], Split(p, 0)))
  {
    SplitJoin(p, Body(cs), 0);
    SplitBody(cs);
    FoldJoin([], Split(p, 0), cs);
    SplitNames(p, 0);
    FoldPlain([], Split(p, 0));
  }

  ghost predicate PlainName(c: string) {
    Name(c) && c != "." && c != ".."
  }

  function LastSlash(s: string): (k: nat)
    requires '/' in s
    ensures k < |s| && s[k] == '/' && forall j | k < j < |s| :: s[j] != '/'
  {
    if s[|s| - 1] == '/' then |s| - 1 else
    assert s == s[..|s| - 1] + [s[|s| - 1]];
    LastSlash(s[..|s| - 1])
  }

  /** A path up to its last slash, or the root. */
  function Up(s: string): string {
    if '/' !in s || LastSlash(s) == 0 then "/" else s[..LastSlash(s)]
  }

  /** A name behind a normalised path. */
  function Down(s: string, c: string): string {
    if s == "/" then "/" + c else s + "/" + c
  }

  lemma UpPrint(stack: seq<string>)
    requires Names(stack)
    ensures Up(Print(stack)) == Print(if stack == [] then [] else stack[..|stack| - 1])
  {
    if stack != [] {
      var init, c := stack[..|stack| - 1], stack[|stack| - 1];
      assert stack == init + [c] && Name(c);
      BodyPush(init, c);
      UpSlash(Body(init), c);
      if init != [] { assert |Body(init)| > 0; }
    }
  }

  lemma UpSlash(a: string, c: string)
    requires '/' !in c
    ensures var s := a + "/" + c; '/' in s && LastSlash(s) == |a| && s[..|a|] == a
  {
    var s := a + "/" + c;
    assert s[|a|] == '/';
    forall j | |a| < j < |s| ensures s[j] != '/' { assert s[j] == c[j - |a| - 1]; }
  }

  lemma DownPrint(stack: seq<string>, c: string)
    requires Names(stack)
    ensures Down(Print(stack), c) == Print(stack + [c])
  {
    BodyPush(stack, c);
    RootLength(stack);
    if stack == [] { assert Body([c]) == "/" + c + Body([]); }
  }

  /** A name put behind a path is entered. */
  lemma NormOne(p: string, c: string)
    requires Name(c)
    ensures Norm(p + "/" + c) == Print(Enter(Fold([], Split(p, 0)), c)) && Plain(Fold([], Split(p, 0)))
  {
    OneName(p, c);
    NormBehind(p, p + "/" + c, [c]);
    FoldOne(Fold([], Split(p, 0)), c);
  }

  lemma OneName(p: string, c: string)
    ensures p + "/" + c == p + Body([c])
  {
    assert Body([c]) == "/" + c + Body([]);
  }

  lemma FoldOne(stack: seq<string>, c: string)
    ensures Fold(stack, [c]) == Enter(stack, c)
  {
    assert [c][1..] == [];
  }

  /** A name goes below the path before it. */
  lemma NormDown(p: string, c: string)
    requires PlainName(c)
    ensures Norm(p + "/" + c) == Down(Norm(p), c)
  {
    NormOne(p, c);
    DownPrint(Fold([], Split(p, 0)), c);
  }

  /** Two dots go up, and stay at the root. */
  lemma NormUp(p: string)
    ensures Norm(p + "/..") == Up(Norm(p))
  {
    assert p + "/" + ".." == p + "/..";
    NormOne(p, "..");
    UpPrint(Fold([], Split(p, 0)));
  }

  /** A dot changes nothing. */
  lemma NormStay(p: string)
    ensures Norm(p + "/.") == Norm(p)
  {
    assert p + "/" + "." == p + "/.";
    NormOne(p, ".");
  }

  /** Nor does a slash at the end. */
  lemma NormSlash(p: string)
    ensures Norm(p + "/") == Norm(p)
  {
    SplitJoin(p, "/", 0);
    SlashesEnd("/", 0, 1);
    assert Split(p, 0) + [] == Split(p, 0);
  }

  /** Down and up again. */
  lemma NormDownUp(p: string, c: string)
    requires PlainName(c)
    ensures Norm(p + "/" + c + "/..") == Norm(p) && Norm("/..") == "/" && Norm("") == "/"
  {
    NormUp(p + "/" + c);
    NormDown(p, c);
    NormUp("");
    assert "" + "/.." == "/..";
    var stack := Fold([], Split(p, 0));
    NormBehind(p, p, []);
    DownPrint(stack, c);
    UpPrint(stack + [c]);
    assert (stack + [c])[..|stack|] == stack;
  }

  /** A relative path is read from the working directory, at the root too. */
  lemma NormJoined(cwd: string, path: string)
    requires cwd != "" && cwd[0] == '/' && (path == "" || path[0] != '/')
    ensures Norm(Joined(cwd, path)) == Norm(cwd + "/" + path)
  {
    if |cwd| == 1 {
      assert cwd == "/";
      SlashesEnd("/", 0, 1);
      JoinEnd("/", "/" + path, 0);
      assert cwd + "/" + path == "/" + ("/" + path) && Joined(cwd, path) == "/" + path;
    }
  }

  // ----- the buffer -----

  ghost predicate Buffer(out: array<char>, len: nat, stack: seq<string>)
    reads out
  {
    out.Length == PATH_MAX && len <= 127 && out[..len] == Print(stack) && Names(stack)
  }

  /** `path_elem_eq`. */
  method ElemEq(p: string, start: nat, len: nat, t: string) returns (eq: bool)
    requires start + len <= |p|
    ensures eq <==> p[start..start + len] == t
  {
    var i := 0;
    while i < len && i < |t|
      invariant 0 <= i <= len && i <= |t| && p[start..start + i] == t[..i]
    {
      if p[start + i] != t[i] {
        assert p[start..start + len][i] == p[start + i];
        return false;
      }
      assert p[start..start + i + 1] == p[start..start + i] + [p[start + i]] && t[..i + 1] == t[..i] + [t[i]];
      i := i + 1;
    }
    eq := i == len && i == |t|;
    if eq { assert t[..i] == t; }
  }

  function Cut(s: string): string {
    if |s| < PATH_MAX then s else s[..PATH_MAX - 1]
  }

  /** `append_path_elem`: a slash unless at the root, then the element, cut at 127 characters. */
  method Append(out: array<char>, len: nat, p: string, start: nat, n: nat) returns (len': nat)
    requires out.Length == PATH_MAX && 1 <= len < PATH_MAX && start + n <= |p|
    modifies out
    ensures len' < PATH_MAX
    ensures out[..len'] == Cut(old(out[..len]) + (if len > 1 then "/" else "") + p[start..start + n])
  {
    var c := p[start..start + n];
    len' := len;
    if len > 1 && len < PATH_MAX - 1 {
      out[len] := '/';
      len' := len + 1;
    }
    ghost var base := out[..len'];
    var i := 0;
    while i < n && len' < PATH_MAX - 1
      invariant 0 <= i <= n && len' == |base| + i && len' <= 127 && out[..len'] == base + c[..i]
    {
      out[len'] := p[start + i];
      assert c[..i + 1] == c[..i] + [c[i]];
      len', i := len' + 1, i + 1;
    }
    Appended(old(out[..len]), base, c, i);
  }

  lemma Appended(was: string, base: string, c: string, i: nat)
    requires 1 <= |was| < PATH_MAX && i <= |c| && |base| + i < PATH_MAX && (i == |c| || |base| + i == PATH_MAX - 1)
    requires base == was + (if 1 < |was| < PATH_MAX - 1 then "/" else "")
    ensures base + c[..i] == Cut(was + (if |was| > 1 then "/" else "") + c)
  {
    var full := was + (if |was| > 1 then "/" else "") + c;
    if |was| < PATH_MAX - 1 {
      assert full == base + c;
      assert base + c[..i] == full[..|base| + i];
    } else {
      assert i == 0 && full[..|was|] == was;
    }
  }

  /** A name that fits is pushed on the stack the buffer prints. */
  lemma PushFits(text: string, stack: seq<string>, c: string)
    requires text == Print(stack) && Names(stack) && Name(c) && |text| + 1 + |c| <= 127 + (if stack == [] then 1 else 0)
    ensures var full := text + (if |text| > 1 then "/" else "") + c;
      Cut(full) == Print(stack + [c]) && Names(stack + [c]) && |full| == |text| + |c| + (if stack == [] then 0 else 1)
  {
    RootLength(stack);
    BodyPush(stack, c);
    assert Body([]) + "/" + c == "/" + c;
  }

  lemma RootLength(stack: seq<string>)
    requires Names(stack)
    ensures |Print(stack)| <= 1 <==> stack == []
    ensures |Print(stack)| >= 1
  {
    if stack != [] { assert Name(stack[0]); }
  }

  /** Back over the last name and the slash before it, except the one at the root. */
  method BackOver(out: array<char>, len: nat, ghost a: string, ghost c: string) returns (k: nat)
    requires len <= out.Length && out[..len] == a + "/" + c && '/' !in c
    ensures k == if a == "" then 1 else |a|
  {
    k := len;
    while k > 1 && out[k - 1] != '/'
      invariant |a| + 1 <= k <= len
    {
      assert out[k - 1] == out[..len][k - 1];
      k := k - 1;
    }
    if k > 1 { k := k - 1; }
  }

  /** `pop_path_elem`: the buffer up to its last slash, or the root. */
  method Pop(out: array<char>, len: nat, ghost stack: seq<string>) returns (len': nat)
    requires Buffer(out, len, stack)
    modifies out
    ensures Buffer(out, len', Enter(stack, "..")) && len' <= (if len < 1 then 1 else len)
    ensures out[..len'] == Up(old(out[..len]))
  {
    RootLength(stack);
    UpPrint(stack);
    if len <= 1 {
      out[0] := '/';
      return 1;
    }
    ghost var init, c := stack[..|stack| - 1], stack[|stack| - 1];
    assert stack == init + [c] && Name(c);
    BodyPush(init, c);
    len' := BackOver(out, len, Body(init), c);
    assert out[..|Body(init)|] == out[..len][..|Body(init)|] == Body(init);
    if init == [] { assert out[0] == out[..len][0]; } else { RootLength(init); }
  }

  method Slashes(p: string, i0: nat) returns (i: nat)
    requires i0 <= |p|
    ensures i == SkipSlashes(p, i0)
  {
    i := i0;
    while i < |p| && p[i] == '/'
      invariant i0 <= i <= |p| && SkipSlashes(p, i) == SkipSlashes(p, i0)
    {
      i := i + 1;
    }
  }

  method NameEnd(p: string, i0: nat) returns (i: nat)
    requires i0 <= |p|
    ensures i == SkipName(p, i0)
  {
    i := i0;
    while i < |p| && p[i] != '/'
      invariant i0 <= i <= |p| && SkipName(p, i) == SkipName(p, i0)
    {
      i := i + 1;
    }
  }

  /** A name appended that fits. */
  method Push(out: array<char>, len: nat, p: string, start: nat, n: nat, ghost stack: seq<string>, ghost c: string)
    returns (len': nat)
    requires Buffer(out, len, stack) && start + n <= |p| && c == p[start..start + n] && Name(c)
    requires len + 1 + n <= 127 + (if stack == [] then 1 else 0)
    modifies out
    ensures Buffer(out, len', stack + [c]) && len' == len + n + if stack == [] then 0 else 1
  {
    RootLength(stack);
    PushFits(out[..len], stack, c);
    len' := Append(out, len, p, start, n);
    assert |out[..len']| == len';
  }

  /** One component: skip it, go up, or append it. */
  method Take(out: array<char>, len: nat, p: string, start: nat, end: nat, ghost stack: seq<string>) returns (len': nat)
    requires Buffer(out, len, stack) && start < end <= |p| <= 127 && Name(p[start..end])
    requires len <= (if start <= 1 then 1 else start - 1) && 1 <= start
    modifies out
    ensures Buffer(out, len', Enter(stack, p[start..end])) && len' <= end
  {
    RootLength(stack);
    var dot := ElemEq(p, start, end - start, ".");
    if dot { return len; }
    var dots := ElemEq(p, start, end - start, "..");
    if dots {
      len' := Pop(out, len, stack);
    } else {
      assert p[start..start + (end - start)] == p[start..end];
      len' := Push(out, len, p, start, end - start, stack, p[start..end]);
    }
  }

  /** `vfs_normalize_path` for absolute paths of up to 127 characters: never cut short. */
  method Normalize(p: string) returns (dst: string)
    requires |p| < PATH_MAX && (p != "" ==> p[0] == '/')
    ensures dst == Norm(p) && |dst| < PATH_MAX && (p != "" ==> |dst| <= |p|)
  {
    var out := new char[PATH_MAX](_ => '/');
    var len: nat, i: nat := 1, 0;
    ghost var stack: seq<string> := [];
    assert out[..1] == "/";
    while i < |p|
      invariant i <= |p| && Buffer(out, len, stack) && len <= (if i == 0 then 1 else i) && (0 < i < |p| ==> p[i] == '/')
      invariant Fold(stack, Split(p, i)) == Fold([], Split(p, 0))
    {
      var start := Slashes(p, i);
      if start == |p| { break; }
      var end := NameEnd(p, start);
      SplitNext(p, i, start, end);
      assert Split(p, i)[0] == p[start..end] && Split(p, i)[1..] == Split(p, end);
      len := Take(out, len, p, start, end, stack);
      stack := Enter(stack, p[start..end]);
      i := end;
    }
    dst := out[..len];
  }

  datatype Elem = Elem(name: string, next: nat) | Empty

  /** `skipelem`: the next component from `at` on, cut to 127 characters, and where the one after starts. */
  method SkipElem(p: string, at: nat) returns (r: Elem)
    requires at <= |p|
    ensures r.Empty? <==> Split(p, at) == []
    ensures r.Elem? ==> at < r.next <= |p| && Split(p, r.next) == Split(p, at)[1..]
    ensures r.Elem? ==> r.name == Cut(Split(p, at)[0])
  {
    var s := Slashes(p, at);
    if s == |p| { return Empty; }
    var e := NameEnd(p, s);
    SplitNext(p, at, s, e);
    var len := e - s;
    if len >= PATH_MAX { len := PATH_MAX - 1; }
    var next := Slashes(p, e);
    SplitFrom(p, e, next);
    SliceTake(p, s, e, len);
    r := Elem(p[s..s + len], next);
  }

  lemma SliceTake(p: string, s: nat, e: nat, n: nat)
    requires s + n <= e <= |p|
    ensures p[s..e][..n] == p[s..s + n]
  {
    var c := p[s..e];
    assert |c[..n]| == |p[s..s + n]|;
    forall k | 0 <= k < n ensures c[..n][k] == p[s..s + n][k] { assert c[k] == p[s + k]; }
  }

  lemma SplitFrom(p: string, i: nat, j: nat)
    requires i <= |p| && j == SkipSlashes(p, i)
    ensures Split(p, j) == Split(p, i)
  {
  }

  /** Walking a normalised path with `skipelem` visits exactly the folded stack. */
  method Walk(p: string) returns (names: seq<string>)
    requires |p| < PATH_MAX
    ensures names == Split(p, 0)
  {
    names := [];
    var at := 0;
    var more := true;
    ghost var all := Split(p, 0);
    ghost var rest := all;
    while more
      invariant at <= |p| && names + rest == all && (if more then rest == Split(p, at) else rest == [])
      decreases more, |p| - at
    {
      var r := SkipElem(p, at);
      if r.Empty? {
        more := false;
      } else {
        SplitShort(p, at);
        MoveOne(names, rest);
        names, at, rest := names + [r.name], r.next, rest[1..];
      }
    }
  }

  lemma MoveOne(a: seq<string>, b: seq<string>)
    requires b != []
    ensures (a + [b[0]]) + b[1..] == a + b
  {
  }

  lemma SplitShort(p: string, i: nat)
    requires i <= |p| < PATH_MAX
    ensures Split(p, i) != [] ==> |Split(p, i)[0]| < PATH_MAX
  {
  }

  /** The working directory with the path after it. */
  function Joined(cwd: string, path: string): string {
    if path != "" && path[0] == '/' then path else cwd + (if |cwd| > 1 then "/" else "") + path
  }

  /** The bytes of the path copied behind the working directory while there is room. */
  method JoinRaw(cwd: string, path: string, ghost full: string) returns (raw: string)
    requires |cwd| < PATH_MAX && full == cwd + (if |cwd| > 1 then "/" else "") + path
    ensures raw == Cut(full)
  {
    raw := cwd;
    if |raw| > 1 && |raw| < PATH_MAX - 1 { raw := raw + "/"; }
    var j := 0;
    ghost var head := raw;
    while j < |path| && |raw| < PATH_MAX - 1
      invariant 0 <= j <= |path| && raw == head + path[..j] && |raw| <= 127
    {
      assert path[..j + 1] == path[..j] + [path[j]];
      raw, j := raw + [path[j]], j + 1;
    }
    if head == cwd + if |cwd| > 1 then "/" else "" {
      assert raw == full[..|raw|];
      if j == |path| { assert path[..j] == path; }
    } else {
      assert j == 0 && raw == cwd && full[..127] == cwd;
    }
  }

  /** `vfs_make_absolute_path`: the joined path, cut to 127 characters, normalised. */
  method MakeAbsolute(cwd: string, path: string) returns (dst: string)
    requires |cwd| < PATH_MAX && cwd != "" && cwd[0] == '/'
    ensures dst == Norm(Cut(Joined(cwd, path)))
  {
    if path != "" && path[0] == '/' {
      dst := Normalize(Cut(path));
      return;
    }
    var raw := JoinRaw(cwd, path, Joined(cwd, path));
    assert raw[0] == Joined(cwd, path)[0];
    dst := Normalize(raw);
  }
}
