/** The slash-separated string and path operations the filesystem relies on,
    with Go's semantics on Unix: strings.Split and strings.Join on "/",
    strings.Replace of every occurrence by the empty string, and
    filepath.Clean, filepath.Join and filepath.Dir (filepath.ToSlash is the
    identity on Unix). */
module GoPaths {

  /** A single directory-entry name: no separator and neither "." nor "..". */
  predicate IsName(c: string) {
    c != "" && c != "." && c != ".." && '/' !in c
  }

  predicate AllNames(ps: seq<string>) {
    forall k :: 0 <= k < |ps| ==> IsName(ps[k])
  }

  // ---------------------------------------------------------------- Split, Join

  /** strings.Split(s, "/"): the pieces between separators, empty ones included. */
  function Split(s: string): (parts: seq<string>)
    ensures |parts| >= 1
    ensures forall k :: 0 <= k < |parts| ==> '/' !in parts[k]
    decreases |s|
  {
    if s == [] then [""]
    else if s[0] == '/' then [""] + Split(s[1..])
    else
      var rest := Split(s[1..]);
      [[s[0]] + rest[0]] + rest[1..]
  }

  /** strings.Join(parts, "/"). */
  function JoinParts(parts: seq<string>): string {
    if parts == [] then ""
    else if |parts| == 1 then parts[0]
    else parts[0] + "/" + JoinParts(parts[1..])
  }

  /** Joining the pieces of a split gives the string back. */
  lemma {:induction false} JoinSplit(s: string)
    ensures JoinParts(Split(s)) == s
    decreases |s|
  {
    if s == [] {
    } else if s[0] == '/' {
      JoinSplit(s[1..]);
      assert s == "/" + s[1..];
    } else {
      var rest := Split(s[1..]);
      JoinSplit(s[1..]);
      if |rest| == 1 {
        assert s == [s[0]] + s[1..];
      } else {
        assert rest == [rest[0]] + rest[1..];
        assert s == [s[0]] + s[1..];
        assert JoinParts(rest) == rest[0] + "/" + JoinParts(rest[1..]);
      }
    }
  }

  /** A string without a separator splits into itself. */
  lemma {:induction false} SplitNoSlash(a: string)
    requires '/' !in a
    ensures Split(a) == [a]
    decreases |a|
  {
    if a != [] {
      assert a[0] in a;
      assert forall x :: x in a[1..] ==> x in a;
      SplitNoSlash(a[1..]);
      assert a == [a[0]] + a[1..];
    }
  }

  /** Splitting at the first separator. */
  lemma {:induction false} SplitAtSlash(a: string, b: string)
    requires '/' !in a
    ensures Split(a + "/" + b) == [a] + Split(b)
    decreases |a|
  {
    var s := a + "/" + b;
    if a == [] {
      assert s[1..] == b;
    } else {
      assert a[0] in a;
      assert forall x :: x in a[1..] ==> x in a;
      assert s[1..] == a[1..] + "/" + b;
      SplitAtSlash(a[1..], b);
      assert a == [a[0]] + a[1..];
    }
  }

  /** Splitting a join of separator-free pieces gives the pieces back. */
  lemma {:induction false} SplitJoin(parts: seq<string>)
    requires |parts| >= 1
    requires forall k :: 0 <= k < |parts| ==> '/' !in parts[k]
    ensures Split(JoinParts(parts)) == parts
    decreases |parts|
  {
    if |parts| == 1 {
      SplitNoSlash(parts[0]);
    } else {
      SplitAtSlash(parts[0], JoinParts(parts[1..]));
      SplitJoin(parts[1..]);
    }
  }

  /** Appending a piece to a non-empty join appends a separator and the piece. */
  lemma {:induction false} JoinPartsAppend(ps: seq<string>, x: string)
    requires |ps| >= 1
    ensures JoinParts(ps + [x]) == JoinParts(ps) + "/" + x
    decreases |ps|
  {
    if |ps| > 1 {
      assert (ps + [x])[1..] == ps[1..] + [x];
      JoinPartsAppend(ps[1..], x);
    }
  }

  /** Joining two non-empty lists is joining their joins. */
  lemma {:induction false} JoinPartsConcat(a: seq<string>, b: seq<string>)
    requires |a| >= 1 && |b| >= 1
    ensures JoinParts(a + b) == JoinParts(a) + "/" + JoinParts(b)
    decreases |b|
  {
    var n := |b| - 1;
    var x := b[n];
    if n == 0 {
      assert a + b == a + [x];
      JoinPartsAppend(a, x);
    } else {
      var c := b[..n];
      assert b == c + [x];
      assert a + b == (a + c) + [x];
      JoinPartsAppend(a + c, x);
      JoinPartsConcat(a, c);
      JoinPartsAppend(c, x);
      Associate(JoinParts(a), JoinParts(c), x);
    }
  }

  lemma Associate(p: string, q: string, x: string)
    ensures p + "/" + q + "/" + x == p + "/" + (q + "/" + x)
  {
  }

  // ---------------------------------------------------------------- Clean

  /** The pieces filepath.Clean keeps before resolving "..": empty pieces
      (doubled or trailing separators) and "." are dropped. */
  function Elements(parts: seq<string>): (es: seq<string>)
    ensures |es| <= |parts|
    ensures forall k :: 0 <= k < |es| ==> es[k] != "" && es[k] != "."
  {
    if parts == [] then []
    else (if parts[0] == "" || parts[0] == "." then [] else [parts[0]]) + Elements(parts[1..])
  }

  lemma {:induction false} ElementsAppend(a: seq<string>, b: seq<string>)
    ensures Elements(a + b) == Elements(a) + Elements(b)
    decreases |a|
  {
    if a == [] {
      assert a + b == b;
    } else {
      assert (a + b)[1..] == a[1..] + b;
      ElementsAppend(a[1..], b);
    }
  }

  lemma {:induction false} ElementsOfNames(ps: seq<string>)
    requires AllNames(ps)
    ensures Elements(ps) == ps
    decreases |ps|
  {
    if ps != [] {
      ElementsOfNames(ps[1..]);
    }
  }

  /** Resolves ".." elements left to right against the elements kept so far:
      a ".." removes the last kept name; at the start of a rooted path it is
      dropped, at the start of a relative path it is kept. */
  function Resolve(stack: seq<string>, elems: seq<string>, rooted: bool): seq<string>
    decreases |elems|
  {
    if elems == [] then stack
    else
      var e := elems[0];
      var next :=
        if e != ".." then stack + [e]
        else if |stack| > 0 && stack[|stack| - 1] != ".." then stack[..|stack| - 1]
        else if rooted then stack
        else stack + [".."];
      Resolve(next, elems[1..], rooted)
  }

  /** Without ".." elements, resolving keeps every element. */
  lemma {:induction false} ResolveNames(stack: seq<string>, elems: seq<string>, rooted: bool)
    requires AllNames(elems)
    ensures Resolve(stack, elems, rooted) == stack + elems
    decreases |elems|
  {
    if elems != [] {
      ResolveNames(stack + [elems[0]], elems[1..], rooted);
      assert stack + [elems[0]] + elems[1..] == stack + elems;
    }
  }

  /** filepath.Clean: the shortest path naming the same file by purely
      lexical processing; "." for a path that names nothing. */
  function Clean(path: string): (r: string)
    ensures r != ""
  {
    var rooted := |path| > 0 && path[0] == '/';
    var joined := JoinParts(Resolve([], Elements(Split(path)), rooted));
    var out := if rooted then "/" + joined else joined;
    if out == "" then "." else out
  }

  /** An absolute path whose elements are all names cleans to those names. */
  lemma CleanOfNames(path: string, ps: seq<string>)
    requires |path| > 0 && path[0] == '/'
    requires |ps| >= 1 && AllNames(ps)
    requires Elements(Split(path)) == ps
    ensures Clean(path) == "/" + JoinParts(ps)
  {
    ResolveNames([], ps, true);
    assert [] + ps == ps;
  }

  /** The elements of "/" followed by a join of names are those names. */
  lemma ElementsOfRootedJoin(ps: seq<string>, pieces: seq<string>)
    requires |ps| >= 1 && AllNames(ps)
    requires pieces == ps || pieces == ps + [""]
    ensures Elements(Split("/" + JoinParts(pieces))) == ps
  {
    var j := JoinParts(pieces);
    assert Split("/" + j) == [""] + pieces by {
      assert "/" + j == "" + "/" + j;
      SplitAtSlash("", j);
      SplitJoin(pieces);
    }
    assert Elements([""] + pieces) == Elements(pieces) by {
      ElementsAppend([""], pieces);
    }
    assert Elements(pieces) == ps by {
      ElementsOfNames(ps);
      if pieces != ps {
        ElementsAppend(ps, [""]);
      }
    }
  }

  /** An absolute path made of names is already clean. */
  lemma CleanRootedNames(ps: seq<string>)
    requires |ps| >= 1 && AllNames(ps)
    ensures Clean("/" + JoinParts(ps)) == "/" + JoinParts(ps)
  {
    ElementsOfRootedJoin(ps, ps);
    CleanOfNames("/" + JoinParts(ps), ps);
  }

  /** Cleaning drops a trailing separator after an absolute path of names. */
  lemma CleanRootedNamesTrailing(ps: seq<string>)
    requires |ps| >= 1 && AllNames(ps)
    ensures Clean("/" + JoinParts(ps) + "/") == "/" + JoinParts(ps)
  {
    JoinPartsAppend(ps, "");
    assert "/" + JoinParts(ps) + "/" == "/" + JoinParts(ps + [""]);
    ElementsOfRootedJoin(ps, ps + [""]);
    CleanOfNames("/" + JoinParts(ps + [""]), ps);
  }

  /** filepath.Join of two elements: empty elements are ignored and the
      result is cleaned. */
  function Join(dir: string, name: string): (r: string)
    ensures r == "" <==> dir == "" && name == ""
  {
    if dir != "" then Clean(dir + "/" + name)
    else if name != "" then Clean(name)
    else ""
  }

  lemma RootedAppend(ps: seq<string>, c: string)
    requires |ps| >= 1
    ensures "/" + JoinParts(ps) + "/" + c == "/" + JoinParts(ps + [c])
  {
    JoinPartsAppend(ps, c);
  }

  /** Joining a name onto an absolute path made of names appends it. */
  lemma JoinName(ps: seq<string>, c: string)
    requires |ps| >= 1 && AllNames(ps) && IsName(c)
    ensures Join("/" + JoinParts(ps), c) == "/" + JoinParts(ps + [c])
    ensures Join("/" + JoinParts(ps), c) == "/" + JoinParts(ps) + "/" + c
  {
    var dir := "/" + JoinParts(ps);
    var joined := "/" + JoinParts(ps + [c]);
    RootedAppend(ps, c);
    assert Clean(joined) == joined by {
      assert AllNames(ps + [c]);
      CleanRootedNames(ps + [c]);
    }
    assert Join(dir, c) == Clean(dir + "/" + c);
  }

  /** The same, for a directory already known to be such a path. */
  lemma JoinRooted(root: string, ps: seq<string>, c: string)
    requires |ps| >= 1 && AllNames(ps) && IsName(c)
    requires root == "/" + JoinParts(ps)
    ensures Join(root, c) == root + "/" + c
  {
    JoinName(ps, c);
  }

  // ---------------------------------------------------------------- Dir

  /** The length of the prefix of s that ends with its last separator; 0 when
      s has none. */
  function LastSlashEnd(s: string): (n: nat)
    ensures n <= |s|
    ensures n > 0 ==> s[n - 1] == '/'
    ensures forall k :: n <= k < |s| ==> s[k] != '/'
  {
    if s == [] then 0
    else if s[|s| - 1] == '/' then |s|
    else LastSlashEnd(s[..|s| - 1])
  }

  /** filepath.Dir: everything up to the last separator, cleaned. */
  function Dir(path: string): (r: string)
    ensures r != ""
    ensures '/' !in path ==> r == "."
  {
    Clean(path[..LastSlashEnd(path)])
  }

  // ---------------------------------------------------------------- Replace

  predicate OccursAt(pat: string, s: string, k: int) {
    0 <= k && k + |pat| <= |s| && s[k..k + |pat|] == pat
  }

  predicate Occurs(pat: string, s: string) {
    exists k :: 0 <= k <= |s| - |pat| && OccursAt(pat, s, k)
  }

  /** Occurrences in the tail of a string are the occurrences one further on. */
  lemma OccursAtShift(pat: string, s: string, k: nat)
    requires |s| > 0
    ensures OccursAt(pat, s[1..], k) <==> OccursAt(pat, s, k + 1)
  {
    if k + |pat| <= |s| - 1 {
      assert s[1..][k..k + |pat|] == s[k + 1..k + 1 + |pat|];
    }
  }

  /** An occurrence that does not start at 0 is an occurrence in the tail. */
  lemma OccursInTail(pat: string, s: string)
    requires |s| > 0 && !OccursAt(pat, s, 0)
    ensures Occurs(pat, s) <==> Occurs(pat, s[1..])
  {
    if Occurs(pat, s) {
      var k :| 0 <= k <= |s| - |pat| && OccursAt(pat, s, k);
      OccursAtShift(pat, s, k - 1);
    }
    if Occurs(pat, s[1..]) {
      var k :| 0 <= k <= |s[1..]| - |pat| && OccursAt(pat, s[1..], k);
      OccursAtShift(pat, s, k);
    }
  }

  /** strings.Replace(s, pat, "", -1): every occurrence of pat, found left to
      right without overlap, is removed. */
  function RemoveAll(s: string, pat: string): (r: string)
    ensures |r| <= |s|
    decreases |s|
  {
    if |pat| == 0 || |s| < |pat| then s
    else if s[..|pat|] == pat then RemoveAll(s[|pat|..], pat)
    else [s[0]] + RemoveAll(s[1..], pat)
  }

  /** Removal leaves a string unchanged exactly when the pattern does not
      occur in it, and shortens it otherwise. */
  lemma {:induction false} RemoveAllUnchangedIffAbsent(s: string, pat: string)
    requires |pat| > 0
    ensures RemoveAll(s, pat) == s <==> !Occurs(pat, s)
    ensures |RemoveAll(s, pat)| == |s| <==> !Occurs(pat, s)
    decreases |s|
  {
    if |s| < |pat| {
    } else if s[..|pat|] == pat {
      assert OccursAt(pat, s, 0);
    } else {
      assert !OccursAt(pat, s, 0);
      OccursInTail(pat, s);
      RemoveAllUnchangedIffAbsent(s[1..], pat);
      assert s == [s[0]] + s[1..];
    }
  }

  /** A leading occurrence is removed and scanning resumes after it. */
  lemma RemoveAllLeading(pat: string, t: string)
    requires |pat| > 0
    ensures RemoveAll(pat + t, pat) == RemoveAll(t, pat)
  {
    assert (pat + t)[..|pat|] == pat;
    assert (pat + t)[|pat|..] == t;
  }

  /** Without an occurrence at 0, removal keeps the first character. */
  lemma RemoveAllKeepsFirst(u: string, pat: string)
    requires |pat| > 0 && |u| >= |pat| && !OccursAt(pat, u, 0)
    ensures RemoveAll(u, pat) == [u[0]] + RemoveAll(u[1..], pat)
  {
    assert u[0..|pat|] == u[..|pat|];
  }

  lemma NoOccurrenceInTail(x: string, pat: string, y: string)
    requires x != []
    requires forall k :: 0 <= k < |x| ==> !OccursAt(pat, x + pat + y, k)
    ensures forall k :: 0 <= k < |x| - 1 ==> !OccursAt(pat, x[1..] + pat + y, k)
  {
    var u := x + pat + y;
    assert u[1..] == x[1..] + pat + y;
    forall k | 0 <= k < |x| - 1 ensures !OccursAt(pat, x[1..] + pat + y, k) {
      OccursAtShift(pat, u, k);
    }
  }

  /** When the first occurrence of pat in x + pat + y is the one after x,
      removing every occurrence keeps x and goes on after that one. */
  lemma {:induction false} RemoveAllAfter(x: string, pat: string, y: string)
    requires |pat| > 0
    requires forall k :: 0 <= k < |x| ==> !OccursAt(pat, x + pat + y, k)
    ensures RemoveAll(x + pat + y, pat) == x + RemoveAll(y, pat)
    decreases |x|
  {
    if x == [] {
      assert x + pat + y == pat + y;
      RemoveAllLeading(pat, y);
    } else {
      NoOccurrenceInTail(x, pat, y);
      RemoveAllAfter(x[1..], pat, y);
      RemoveAllAfterStep(x, pat, y);
    }
  }

  lemma SplitFirst(x: string, pat: string, y: string)
    requires x != []
    ensures (x + pat + y)[0] == x[0]
    ensures (x + pat + y)[1..] == x[1..] + pat + y
  {
  }

  lemma ConsRest(x: string, r: string)
    requires x != []
    ensures x + r == [x[0]] + (x[1..] + r)
  {
  }

  lemma RemoveAllAfterStep(x: string, pat: string, y: string)
    requires |pat| > 0 && x != []
    requires !OccursAt(pat, x + pat + y, 0)
    requires RemoveAll(x[1..] + pat + y, pat) == x[1..] + RemoveAll(y, pat)
    ensures RemoveAll(x + pat + y, pat) == x + RemoveAll(y, pat)
  {
    var u := x + pat + y;
    SplitFirst(x, pat, y);
    RemoveAllKeepsFirst(u, pat);
    ConsRest(x, RemoveAll(y, pat));
  }

  /** strings.HasPrefix(s, "/") followed by s[1:]. */
  function TrimLeadingSlash(s: string): (r: string)
    ensures s == r || s == "/" + r
    ensures |s| > 0 && s[0] == '/' ==> |r| == |s| - 1
  {
    if |s| > 0 && s[0] == '/' then s[1..] else s
  }
}
