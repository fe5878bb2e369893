/**
 Room extraction from a page's pathname, as the template entry point does it:
 split the pathname on `/`, reverse the pieces, drop the empty ones and take
 the first that is left. The module models those three steps literally and
 proves that the result is the last non-empty segment of the pathname, as
 characterised independently by `SegmentAt` and `AllSlashes`.
 */
module RoomPath {
  import opened Chat

  /** No character of `s` is a slash. */
  predicate NoSlash(s: string) {
    forall i :: 0 <= i < |s| ==> s[i] != '/'
  }

  /** Every character of `s` is a slash (true of the empty string). */
  predicate AllSlashes(s: string) {
    forall i :: 0 <= i < |s| ==> s[i] == '/'
  }

  /** Index of the last `/` in `s`, or -1 when there is none. */
  function LastSlash(s: string): (i: int)
    ensures -1 <= i < |s|
    ensures i >= 0 ==> s[i] == '/'
    ensures forall j :: i < j < |s| ==> s[j] != '/'
  {
    if s == [] then -1
    else if s[|s| - 1] == '/' then |s| - 1
    else LastSlash(s[..|s| - 1])
  }

  /** JavaScript's `s.split('/')`: the pieces between slashes, empty ones included. */
  function Split(s: string): (segs: seq<string>)
    ensures |segs| >= 1
    ensures forall j :: 0 <= j < |segs| ==> NoSlash(segs[j])
    decreases |s|
  {
    var i := LastSlash(s);
    if i < 0 then [s] else Split(s[..i]) + [s[i + 1..]]
  }

  /** Joins pieces with `/` between them; the inverse of `Split`. */
  function Join(segs: seq<string>): string
    requires |segs| >= 1
  {
    if |segs| == 1 then segs[0]
    else Join(segs[..|segs| - 1]) + "/" + segs[|segs| - 1]
  }

  /** JavaScript's `xs.reverse()`. */
  function Reverse<T>(xs: seq<T>): (r: seq<T>)
    ensures |r| == |xs|
    ensures forall i :: 0 <= i < |xs| ==> r[i] == xs[|xs| - 1 - i]
  {
    if xs == [] then [] else [xs[|xs| - 1]] + Reverse(xs[..|xs| - 1])
  }

  /** JavaScript's `xs.filter(x => x)` on strings: keeps the non-empty ones in order. */
  function DropEmpty(xs: seq<string>): (r: seq<string>)
    ensures |r| <= |xs|
    ensures forall i :: 0 <= i < |r| ==> r[i] != "" && r[i] in xs
    ensures forall i :: 0 <= i < |xs| && xs[i] != "" ==> xs[i] in r
  {
    if xs == [] then []
    else (if xs[0] == "" then [] else [xs[0]]) + DropEmpty(xs[1..])
  }

  /** `DropEmpty` keeps order: filtering a concatenation concatenates the
      filtered parts. */
  lemma {:induction false} DropEmptyAppend(a: seq<string>, b: seq<string>)
    ensures DropEmpty(a + b) == DropEmpty(a) + DropEmpty(b)
    decreases |a|
  {
    if a == [] {
      assert a + b == b;
    } else {
      assert (a + b)[0] == a[0];
      assert (a + b)[1..] == a[1..] + b;
      DropEmptyAppend(a[1..], b);
    }
  }

  /** `pathname.split('/').reverse().filter(x => x)[0]`; `None` stands for `undefined`. */
  function ExtractRoom(pathname: string): (room: Option<string>)
    ensures room.Some? ==> room.value != "" && NoSlash(room.value)
  {
    var pieces := Split(pathname);
    var segs := DropEmpty(Reverse(pieces));
    if |segs| == 0 then None
    else
      assert exists i :: 0 <= i < |pieces| && segs[0] == pieces[i];
      Some(segs[0])
  }

  /** `r` sits at index `k` of `p` as a whole segment followed only by slashes. */
  predicate SegmentAt(p: string, r: string, k: int) {
    && 0 <= k
    && k + |r| <= |p|
    && p[k..k + |r|] == r
    && (k == 0 || p[k - 1] == '/')
    && AllSlashes(p[k + |r|..])
  }

  /** Reference definition: `r` is the last non-empty `/`-separated segment of `p`. */
  ghost predicate IsLastSegment(p: string, r: string) {
    r != "" && NoSlash(r) && exists k :: SegmentAt(p, r, k)
  }

  /** Splitting then joining gives the string back. */
  lemma {:induction false} JoinSplit(s: string)
    ensures Join(Split(s)) == s
    decreases |s|
  {
    var i := LastSlash(s);
    if i >= 0 {
      var segs := Split(s);
      assert segs == Split(s[..i]) + [s[i + 1..]];
      assert segs[..|segs| - 1] == Split(s[..i]);
      JoinSplit(s[..i]);
      assert s == s[..i] + "/" + s[i + 1..];
    }
  }

  /** Joining slash-free pieces then splitting gives the pieces back. */
  lemma {:induction false} SplitJoin(segs: seq<string>)
    requires |segs| >= 1
    requires forall j :: 0 <= j < |segs| ==> NoSlash(segs[j])
    ensures Split(Join(segs)) == segs
    decreases |segs|
  {
    if |segs| > 1 {
      var init := segs[..|segs| - 1];
      var last := segs[|segs| - 1];
      var s := Join(segs);
      assert s == Join(init) + "/" + last;
      LastSlashOfTail(Join(init), last);
      assert s[..|Join(init)|] == Join(init);
      assert s[|Join(init)| + 1..] == last;
      SplitJoin(init);
      assert segs == init + [last];
    }
  }

  /** The last slash of `a + "/" + b`, when `b` has none, is the one between them. */
  lemma LastSlashOfTail(a: string, b: string)
    requires NoSlash(b)
    ensures LastSlash(a + "/" + b) == |a|
    decreases |b|
  {
    var s := a + "/" + b;
    if b != [] {
      assert s[..|s| - 1] == a + "/" + b[..|b| - 1];
      LastSlashOfTail(a, b[..|b| - 1]);
    }
  }

  /** `Reverse` moves the last element of its argument to the front. */
  lemma ReverseSnoc<T>(xs: seq<T>, x: T)
    ensures Reverse(xs + [x]) == [x] + Reverse(xs)
  {
    assert (xs + [x])[..|xs|] == xs;
  }

  /** `DropEmpty` examines the head first. */
  lemma DropEmptyCons(x: string, xs: seq<string>)
    ensures DropEmpty([x] + xs) == (if x == "" then [] else [x]) + DropEmpty(xs)
  {
    assert ([x] + xs)[1..] == xs;
  }

  /** The extraction read from the right: the text after the last slash,
      or, when that piece is empty, the same search on the text before it. */
  function LastSegment(p: string): (room: Option<string>)
    decreases |p|
  {
    var i := LastSlash(p);
    if i < 0 then (if p == "" then None else Some(p))
    else if p[i + 1..] != "" then Some(p[i + 1..])
    else LastSegment(p[..i])
  }

  /** The literal split-reverse-filter pipeline computes `LastSegment`. */
  lemma {:induction false} ExtractRoomIsLastSegmentFn(p: string)
    ensures ExtractRoom(p) == LastSegment(p)
    decreases |p|
  {
    var i := LastSlash(p);
    if i >= 0 {
      var tail := p[i + 1..];
      ReverseSnoc(Split(p[..i]), tail);
      DropEmptyCons(tail, Reverse(Split(p[..i])));
      if tail == "" {
        ExtractRoomIsLastSegmentFn(p[..i]);
      }
    }
  }

  /** A segment followed only by slashes still is one after another slash. */
  lemma TrailingSlashKeepsSegmentAt(q: string, p: string, r: string, k: int)
    requires p == q + "/"
    requires SegmentAt(q, r, k)
    ensures SegmentAt(p, r, k)
  {
    assert p[k..k + |r|] == q[k..k + |r|];
    assert p[k + |r|..] == q[k + |r|..] + "/";
  }

  /** Whatever `LastSegment` returns is described by the reference definition. */
  lemma {:induction false} LastSegmentSound(p: string)
    ensures LastSegment(p) == None ==> AllSlashes(p)
    ensures LastSegment(p).Some? ==> IsLastSegment(p, LastSegment(p).value)
    decreases |p|
  {
    var i := LastSlash(p);
    if i < 0 {
      if p != "" {
        assert p[0..|p|] == p;
        assert SegmentAt(p, p, 0);
      }
    } else if p[i + 1..] != "" {
      var r := p[i + 1..];
      assert p[i + 1..i + 1 + |r|] == r;
      assert SegmentAt(p, r, i + 1);
    } else {
      var q := p[..i];
      LastSegmentSound(q);
      assert p == q + "/";
      assert LastSegment(p) == LastSegment(q);
      match LastSegment(q)
      case None =>
        assert AllSlashes(p);
      case Some(r) =>
        var k :| SegmentAt(q, r, k);
        TrailingSlashKeepsSegmentAt(q, p, r, k);
    }
  }

  /** A pathname made only of slashes has no last segment. */
  lemma {:induction false} AllSlashesHasNoSegment(p: string)
    requires AllSlashes(p)
    ensures LastSegment(p) == None
    decreases |p|
  {
    if p != "" {
      assert p[|p| - 1] == '/';
      assert LastSlash(p) == |p| - 1;
      AllSlashesHasNoSegment(p[..|p| - 1]);
    }
  }

  /** A segment followed only by slashes is what `LastSegment` finds. */
  lemma {:induction false} SegmentIsFound(p: string, r: string, k: int)
    requires r != "" && NoSlash(r)
    requires SegmentAt(p, r, k)
    ensures LastSegment(p) == Some(r)
    decreases |p|
  {
    var i := LastSlash(p);
    if k + |r| == |p| {
      assert p[k..] == r;
      assert forall j :: k <= j < |p| ==> p[j] == r[j - k];
      assert i < k;
      if k == 0 {
        assert p == r;
      } else {
        assert i == k - 1;
        assert p[i + 1..] == r;
      }
    } else {
      assert p[|p| - 1] == p[k + |r|..][|p| - 1 - (k + |r|)];
      assert i == |p| - 1;
      var q := p[..i];
      assert q[k..k + |r|] == r;
      assert q[k + |r|..] == p[k + |r|..|p| - 1];
      assert SegmentAt(q, r, k);
      SegmentIsFound(q, r, k);
    }
  }

  /** The extraction returns `r` exactly when `r` is the last non-empty segment. */
  lemma ExtractRoomIsLastSegment(p: string, r: string)
    ensures ExtractRoom(p) == Some(r) <==> IsLastSegment(p, r)
  {
    ExtractRoomIsLastSegmentFn(p);
    LastSegmentSound(p);
    if IsLastSegment(p, r) {
      var k :| SegmentAt(p, r, k);
      SegmentIsFound(p, r, k);
    }
  }

  /** The extraction returns nothing exactly when the pathname is only slashes. */
  lemma ExtractRoomNoneIffAllSlashes(p: string)
    ensures ExtractRoom(p) == None <==> AllSlashes(p)
  {
    ExtractRoomIsLastSegmentFn(p);
    LastSegmentSound(p);
    if AllSlashes(p) {
      AllSlashesHasNoSegment(p);
    }
  }

  /** A trailing slash does not change the last segment. */
  lemma TrailingSlashKeepsSegment(p: string, q: string)
    requires q == p + "/"
    ensures LastSegment(q) == LastSegment(p)
  {
    LastSegmentSound(p);
    match LastSegment(p)
    case None =>
      assert AllSlashes(q);
      AllSlashesHasNoSegment(q);
    case Some(r) =>
      var k :| SegmentAt(p, r, k);
      assert q[k..k + |r|] == p[k..k + |r|];
      assert q[k + |r|..] == p[k + |r|..] + "/";
      SegmentIsFound(q, r, k);
  }

  /** A segment of `p` is a segment of `"/" + p`, one position further on. */
  lemma LeadingSlashShiftsSegment(p: string, q: string, r: string, k: int)
    requires q == "/" + p
    requires SegmentAt(p, r, k)
    ensures SegmentAt(q, r, k + 1)
  {
    assert q[k + 1..k + 1 + |r|] == p[k..k + |r|];
    assert q[k + 1 + |r|..] == p[k + |r|..];
    if k > 0 {
      assert q[k] == p[k - 1];
    }
  }

  /** A leading slash does not change the last segment. */
  lemma LeadingSlashKeepsSegment(p: string, q: string)
    requires q == "/" + p
    ensures LastSegment(q) == LastSegment(p)
  {
    LastSegmentSound(p);
    match LastSegment(p)
    case None =>
      assert forall i :: 1 <= i < |q| ==> q[i] == p[i - 1];
      assert AllSlashes(q);
      AllSlashesHasNoSegment(q);
    case Some(r) =>
      var k :| SegmentAt(p, r, k);
      LeadingSlashShiftsSegment(p, q, r, k);
      SegmentIsFound(q, r, k + 1);
  }

  /** A trailing slash does not change the room. */
  lemma TrailingSlashIgnored(p: string, q: string)
    requires q == p + "/"
    ensures ExtractRoom(q) == ExtractRoom(p)
  {
    ExtractRoomIsLastSegmentFn(p);
    ExtractRoomIsLastSegmentFn(q);
    TrailingSlashKeepsSegment(p, q);
  }

  /** A leading slash does not change the room. */
  lemma LeadingSlashIgnored(p: string, q: string)
    requires q == "/" + p
    ensures ExtractRoom(q) == ExtractRoom(p)
  {
    ExtractRoomIsLastSegmentFn(p);
    ExtractRoomIsLastSegmentFn(q);
    LeadingSlashKeepsSegment(p, q);
  }

  /** Appending a segment after a slash makes it the room. */
  lemma AppendedSegmentIsRoom(p: string, r: string)
    requires r != "" && NoSlash(r)
    ensures ExtractRoom(p + "/" + r) == Some(r)
  {
    var q := p + "/" + r;
    assert q[|p| + 1..|p| + 1 + |r|] == r;
    assert q[|p| + 1 + |r|..] == "";
    ExtractRoomIsLastSegmentFn(q);
    SegmentIsFound(q, r, |p| + 1);
  }

  /** `/abc` names the room `abc`. */
  lemma ExampleSingleSegment(p: string)
    requires p == "/abc"
    ensures ExtractRoom(p) == Some("abc")
  {
    var abc := p[1..];
    assert abc == "abc";
    assert NoSlash(abc);
    AppendedSegmentIsRoom("", abc);
    assert "" + "/" + abc == p;
  }

  /** `//abc//` names the same room as `/abc/`. */
  lemma ExampleDoubledSlashes(p: string, q: string)
    requires p == "/abc/" && q == "//abc//"
    ensures ExtractRoom(q) == ExtractRoom(p)
  {
    var r := "/" + p;
    LeadingSlashIgnored(p, r);
    TrailingSlashIgnored(r, q);
  }

  /** `/abc`, `/abc/` and `//abc//` all name the room `abc`; `/` names none. */
  lemma ExtractRoomExamples(p1: string, p2: string, p3: string, p4: string)
    requires p1 == "/abc" && p2 == "/abc/" && p3 == "//abc//" && p4 == "/"
    ensures ExtractRoom(p1) == Some("abc")
    ensures ExtractRoom(p2) == Some("abc")
    ensures ExtractRoom(p3) == Some("abc")
    ensures ExtractRoom(p4) == None
  {
    ExampleSingleSegment(p1);
    TrailingSlashIgnored(p1, p2);
    ExampleDoubledSlashes(p2, p3);
    assert AllSlashes(p4);
    ExtractRoomNoneIffAllSlashes(p4);
  }
}
