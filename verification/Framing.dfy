/**
 Lines on the serial wire: a message is a NUL-terminated text in a 128-byte buffer, and each
 one is sent followed by CR LF.
 */
module Framing {
  import opened SerialDevice

  const CR: Byte := 13
  const LF: Byte := 10
  const BUFFER_SIZE := 128

  /** A formatted message: what `kernel_vsprintf` leaves before the first NUL. */
  type Text = s: seq<Byte> | |s| < 128 && 0 !in s witness []

  /** `str_buf` after it has been cleared and the text written to it. */
  function Buffer(text: Text): (buf: seq<Byte>)
    ensures |buf| == 128
    ensures forall p :: 0 <= p <= |text| ==> (buf[p] == 0 <==> p == |text|)
    ensures buf[..|text|] == text
  {
    text + seq(BUFFER_SIZE - |text|, _ => 0)
  }

  /** A message and the two bytes that end it, 13 and 10. */
  function Line(m: seq<Byte>): seq<Byte> {
    m + [13, 10]
  }

  function Render(ms: seq<seq<Byte>>): seq<Byte> {
    if ms == [] then [] else Render(ms[..|ms| - 1]) + Line(ms[|ms| - 1])
  }

  /** CR LF stands at position `i`. */
  predicate BreakAt(s: seq<Byte>, i: int) {
    0 <= i < |s| - 1 && s[i] == 13 && s[i + 1] == 10
  }

  ghost predicate Unbroken(s: seq<Byte>) {
    forall i :: !BreakAt(s, i)
  }

  /** The position of the first CR LF at or after `i`, or the length when there is none. */
  function FirstBreak(s: seq<Byte>, i: nat): (j: nat)
    requires i <= |s|
    ensures i <= j <= |s|
    ensures forall k :: i <= k < j ==> !BreakAt(s, k)
    ensures j < |s| ==> BreakAt(s, j)
    decreases |s| - i
  {
    if i == |s| || BreakAt(s, i) then i else FirstBreak(s, i + 1)
  }

  /** What a reader recovers: the completed lines of a byte stream. */
  function Split(s: seq<Byte>): seq<seq<Byte>>
    decreases |s|
  {
    var j := FirstBreak(s, 0);
    if j == |s| then [] else [s[..j]] + Split(s[j + 2..])
  }

  lemma {:induction false} RenderConcat(a: seq<seq<Byte>>, b: seq<seq<Byte>>)
    ensures Render(a + b) == Render(a) + Render(b)
    decreases |b|
  {
    hide Line;
    if b == [] {
      assert a + b == a;
    } else {
      var n := |b| - 1;
      assert (a + b)[..|a + b| - 1] == a + b[..n];
      RenderConcat(a, b[..n]);
    }
  }

  /** The first break of a line that itself has none is its own CR LF, even when the message
      ends in CR or the next one starts with LF. */
  lemma FirstBreakOfLine(m: seq<Byte>, rest: seq<Byte>)
    requires Unbroken(m)
    ensures FirstBreak(Line(m) + rest, 0) == |m|
  {
    var s := Line(m) + rest;
    assert BreakAt(s, |m|);
    forall k | 0 <= k < |m|
      ensures !BreakAt(s, k)
    {
      assert !BreakAt(m, k);
    }
  }

  /** One line comes off the front. */
  lemma SplitLine(m: seq<Byte>, rest: seq<Byte>)
    requires Unbroken(m)
    ensures Split(Line(m) + rest) == [m] + Split(rest)
  {
    FirstBreakOfLine(m, rest);
    assert (Line(m) + rest)[..|m|] == m;
    assert (Line(m) + rest)[|m| + 2..] == rest;
  }

  lemma RenderFirst(ms: seq<seq<Byte>>)
    requires ms != []
    ensures Render(ms) == Line(ms[0]) + Render(ms[1..])
  {
    RenderConcat(ms[..1], ms[1..]);
    assert ms[..1] + ms[1..] == ms;
    assert ms[..1][..0] == [] && Render(ms[..1]) == Line(ms[0]);
  }

  /** Splitting undoes rendering, whatever unfinished line follows. */
  lemma {:induction false} SplitRender(ms: seq<seq<Byte>>, tail: seq<Byte>)
    requires forall i :: 0 <= i < |ms| ==> Unbroken(ms[i])
    requires Unbroken(tail)
    ensures Split(Render(ms) + tail) == ms
    decreases |ms|
  {
    if ms == [] {
      assert Render(ms) + tail == tail;
    } else {
      hide Render, Split, Line;
      RenderFirst(ms);
      assert Render(ms) + tail == Line(ms[0]) + (Render(ms[1..]) + tail);
      SplitLine(ms[0], Render(ms[1..]) + tail);
      SplitRender(ms[1..], tail);
    }
  }

  lemma {:induction false} SplitPiecesUnbroken(s: seq<Byte>, i: nat)
    requires i < |Split(s)|
    ensures Unbroken(Split(s)[i])
    decreases |s|
  {
    var j := FirstBreak(s, 0);
    if i == 0 {
      forall k ensures !BreakAt(s[..j], k) {
        assert 0 <= k < j ==> !BreakAt(s, k);
      }
    } else {
      SplitPiecesUnbroken(s[j + 2..], i - 1);
    }
  }

  /** The framing is lossless exactly for messages without a CR LF of their own. */
  lemma FramingRoundTrip(ms: seq<seq<Byte>>)
    ensures Split(Render(ms)) == ms <==> forall i :: 0 <= i < |ms| ==> Unbroken(ms[i])
  {
    if forall i :: 0 <= i < |ms| ==> Unbroken(ms[i]) {
      SplitRender(ms, []);
      assert Render(ms) + [] == Render(ms);
    } else if Split(Render(ms)) == ms {
      forall i | 0 <= i < |ms| ensures Unbroken(ms[i]) {
        SplitPiecesUnbroken(Render(ms), i);
      }
    }
  }
}
