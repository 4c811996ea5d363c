/**
  The text framing shared by the pool servers and the client: a message is the
  text that precedes the terminator "\r\n\r\n".  `Split` is the reference
  definition of how a received text decomposes into complete frames and an
  unterminated remainder; the servers' incremental loops are proved against it.
*/
module Framing {
  import opened Wrappers

  /** The sequence that ends every command and every response. */
  const Terminator: string := "\r\n\r\n"

  /** A terminator starts at position i of s. */
  predicate TerminatorAt(s: string, i: int) {
    0 <= i && i + |Terminator| <= |s| && s[i..i + |Terminator|] == Terminator
  }

  /** The position of the leftmost terminator of s at or after `from`, if any
      (Python's `str.find` with a start index). */
  function FindFrom(s: string, from: nat): (r: Option<nat>)
    ensures r.Some? ==> from <= r.value && TerminatorAt(s, r.value)
    ensures forall j :: from <= j && (r.None? || j < r.value) ==> !TerminatorAt(s, j)
    decreases |s| - from
  {
    if from + |Terminator| > |s| then None
    else if TerminatorAt(s, from) then Some(from)
    else FindFrom(s, from + 1)
  }

  /** The position of the leftmost terminator of s, if any. */
  function Find(s: string): Option<nat> {
    FindFrom(s, 0)
  }

  /** Python's `"\r\n\r\n" in s`. */
  predicate HasTerminator(s: string) {
    Find(s).Some?
  }

  /** The text before the first terminator, or all of s when there is none
      (Python's `s.split("\r\n\r\n")[0]`). */
  function Before(s: string): string {
    match Find(s)
    case None => s
    case Some(i) => s[..i]
  }

  /** Complete frames, in arrival order, and the unterminated remainder. */
  datatype Framed = Framed(frames: seq<string>, rest: string)

  /** Reference framing: repeatedly cut the text at its leftmost terminator
      (Python's `s.split("\r\n\r\n", 1)`) until none is left. */
  function Split(s: string): Framed
    decreases |s|
  {
    match Find(s)
    case None => Framed([], s)
    case Some(i) =>
      var tail := Split(s[i + |Terminator|..]);
      Framed([s[..i]] + tail.frames, tail.rest)
  }

  /** Every frame followed by the terminator, in order: the wire text of a
      sequence of frames. */
  function Join(frames: seq<string>): string {
    if frames == [] then "" else frames[0] + Terminator + Join(frames[1..])
  }

  /** A frame that survives framing intact: when the terminator is appended to
      it, the leftmost terminator is the appended one. */
  predicate Framable(f: string) {
    Find(f + Terminator) == Some(|f|)
  }

  // ---------------------------------------------------------------------------
  // The terminator search

  /** A terminator with none to its left is the one Find reports. */
  lemma FindIsLeftmost(s: string, i: nat)
    requires TerminatorAt(s, i)
    requires forall j :: 0 <= j < i ==> !TerminatorAt(s, j)
    ensures Find(s) == Some(i)
  {
  }

  /** Appending text never moves the leftmost terminator. */
  lemma FindExtend(s: string, t: string)
    requires Find(s).Some?
    ensures Find(s + t) == Find(s)
  {
    var i := Find(s).value;
    assert (s + t)[i..i + |Terminator|] == s[i..i + |Terminator|];
    forall j | 0 <= j < i
      ensures !TerminatorAt(s + t, j)
    {
      assert !TerminatorAt(s, j);
      assert (s + t)[j..j + |Terminator|] == s[j..j + |Terminator|];
    }
    FindIsLeftmost(s + t, i);
  }

  /** The prefix of s up to and including its first terminator still has that
      terminator first. */
  lemma FindPrefix(s: string)
    requires Find(s).Some?
    ensures Find(s[..Find(s).value + |Terminator|]) == Find(s)
  {
    var i := Find(s).value;
    var p := s[..i + |Terminator|];
    assert p[i..i + |Terminator|] == s[i..i + |Terminator|];
    forall j | 0 <= j < i
      ensures !TerminatorAt(p, j)
    {
      assert !TerminatorAt(s, j);
      assert p[j..j + |Terminator|] == s[j..j + |Terminator|];
    }
    FindIsLeftmost(p, i);
  }

  /** A frame that holds no carriage return, as every command of the wire
      protocol (a verb, file names and base64 text) does, is framable. */
  lemma NoCarriageReturnIsFramable(f: string)
    requires forall k :: 0 <= k < |f| ==> f[k] != '\r'
    ensures Framable(f)
  {
    var s := f + Terminator;
    assert s[|f|..|f| + |Terminator|] == Terminator;
    forall j | 0 <= j < |f|
      ensures !TerminatorAt(s, j)
    {
      assert s[j] == f[j];
    }
    FindIsLeftmost(s, |f|);
  }

  /** Once the accumulated text holds a terminator, more text does not change
      what precedes the first one. */
  lemma BeforeExtend(s: string, t: string)
    requires HasTerminator(s)
    ensures Before(s + t) == Before(s)
  {
    FindExtend(s, t);
    var i := Find(s).value;
    assert (s + t)[..i] == s[..i];
  }

  /** A framable reply followed by the terminator is read back exactly,
      whatever follows it. */
  lemma BeforeFramed(f: string, t: string)
    requires Framable(f)
    ensures Before(f + Terminator + t) == f
  {
    BeforeExtend(f + Terminator, t);
    assert (f + Terminator)[..|f|] == f;
  }

  // ---------------------------------------------------------------------------
  // Properties of the reference framing

  /** Concatenation regrouped; kept apart so that proofs about framing do not
      have to rediscover it among the search's quantifiers. */
  lemma AppendAssoc(a: string, b: string, c: string)
    ensures (a + b) + c == a + (b + c)
  {
  }

  /** A prefix that reaches past a first part keeps that part whole. */
  lemma PrefixConcat(a: string, b: string, k: nat)
    requires k <= |b|
    ensures (a + b)[..|a| + k] == a + b[..k]
  {
  }

  /** A non-empty frame list followed by more frames, regrouped. */
  lemma FramesCons(fs: seq<string>, more: seq<string>)
    requires fs != []
    ensures fs + more == [fs[0]] + (fs[1..] + more)
  {
  }

  /** Join of a frame followed by more frames. */
  lemma JoinCons(f: string, fs: seq<string>)
    ensures Join([f] + fs) == f + Terminator + Join(fs)
  {
    assert ([f] + fs)[1..] == fs;
  }

  /** The two sides of a terminator placed between two texts. */
  lemma FramePieces(f: string, more: string)
    ensures var s := f + Terminator + more;
            s[..|f|] == f && s[|f| + |Terminator|..] == more
  {
  }

  /** One step of Split: the text before the leftmost terminator, then the
      framing of what follows it. */
  lemma SplitStep(s: string)
    requires Find(s).Some?
    ensures var i := Find(s).value;
            var tail := Split(s[i + |Terminator|..]);
            Split(s) == Framed([s[..i]] + tail.frames, tail.rest)
            && s == s[..i] + Terminator + s[i + |Terminator|..]
  {
    var i := Find(s).value;
    assert s == s[..i] + s[i..i + |Terminator|] + s[i + |Terminator|..];
  }

  /** The frames, each followed by the terminator, then the remainder, give
      back the whole text. */
  lemma {:induction false} SplitReassembles(s: string)
    ensures Join(Split(s).frames) + Split(s).rest == s
    decreases |s|
  {
    match Find(s)
    case None =>
    case Some(i) =>
      var t := s[i + |Terminator|..];
      var tail := Split(t);
      SplitStep(s);
      var a, j, r := s[..i], Join(tail.frames), tail.rest;
      JoinCons(a, tail.frames);
      SplitReassembles(t);
      AppendAssoc(a + Terminator, j, r);
  }

  /** The remainder never holds a terminator. */
  lemma {:induction false} SplitRestClean(s: string)
    ensures !HasTerminator(Split(s).rest)
    decreases |s|
  {
    match Find(s)
    case None =>
    case Some(i) =>
      SplitStep(s);
      SplitRestClean(s[i + |Terminator|..]);
  }

  /** Every frame was cut at the leftmost terminator, so it is framable. */
  lemma {:induction false} SplitFramesFramable(s: string)
    ensures forall k :: 0 <= k < |Split(s).frames| ==> Framable(Split(s).frames[k])
    decreases |s|
  {
    match Find(s)
    case None =>
    case Some(i) =>
      var t := s[i + |Terminator|..];
      SplitStep(s);
      SplitFramesFramable(t);
      FindPrefix(s);
      assert s[..i] + Terminator == s[..i + |Terminator|] by {
        assert s[i..i + |Terminator|] == Terminator;
      }
  }

  /** Framing a wire text built from framable frames gives those frames back,
      in order, followed by the framing of what comes after them. */
  lemma {:induction false} SplitJoin(fs: seq<string>, r: string)
    requires forall k :: 0 <= k < |fs| ==> Framable(fs[k])
    ensures Split(Join(fs) + r) == Framed(fs + Split(r).frames, Split(r).rest)
  {
    if fs == [] {
      assert Join(fs) + r == r;
    } else {
      var f, more := fs[0], Join(fs[1..]) + r;
      var s := Join(fs) + r;
      assert fs == [f] + fs[1..];
      JoinCons(f, fs[1..]);
      AppendAssoc(f + Terminator, Join(fs[1..]), r);
      assert s == f + Terminator + more;
      FindExtend(f + Terminator, more);
      SplitStep(s);
      FramePieces(f, more);
      SplitJoin(fs[1..], r);
      FramesCons(fs, Split(r).frames);
    }
  }

  /** Splitting is incremental: the frames of a + b are the frames of a, then
      the frames of a's remainder followed by b.  This is what lets a server
      frame each read as it arrives. */
  lemma SplitAppend(a: string, b: string)
    ensures var head := Split(a);
            var tail := Split(head.rest + b);
            Split(a + b) == Framed(head.frames + tail.frames, tail.rest)
  {
    var head := Split(a);
    SplitReassembles(a);
    SplitFramesFramable(a);
    AppendAssoc(Join(head.frames), head.rest, b);
    SplitJoin(head.frames, head.rest + b);
  }

  /** One framable command sent as one frame is received as exactly that
      command, with nothing left over. */
  lemma SingleRequest(c: string)
    requires Framable(c)
    ensures Split(c + Terminator) == Framed([c], "")
  {
    assert Join([c]) + "" == c + Terminator;
    SplitJoin([c], "");
    assert Find("").None?;
  }

  /** Two commands written back to back are received as two frames, in the
      order they were written. */
  lemma Pipelining(c1: string, c2: string)
    requires Framable(c1) && Framable(c2)
    ensures Split(c1 + Terminator + c2 + Terminator) == Framed([c1, c2], "")
  {
    assert Join([c1, c2]) + "" == c1 + Terminator + c2 + Terminator by {
      assert [c1, c2][1..] == [c2];
      assert Join([c2]) == c2 + Terminator;
    }
    SplitJoin([c1, c2], "");
    assert Find("").None?;
  }
}
