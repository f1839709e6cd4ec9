/** What the host makes of any stream of packets: scripts/python_framework/generic_hid_device.py:159-206. */
module HidHostStreams {
  import opened Wrappers
  import opened HidPackets
  import opened HidHost

  predicate IsLast(p: Framed) {
    IdOf(p) == TotalOf(p)
  }

  /** None of the packets bears the number of the last one. */
  predicate NoneLast(ps: seq<Framed>) {
    forall k :: 0 <= k < |ps| ==> !IsLast(ps[k])
  }

  /** Command and length are not payload: the first four bytes, or as many as the first packet has. */
  function Skipped(first: Framed): nat {
    if LengthOf(first) < 4 then LengthOf(first) else 4
  }

  function Head(first: Framed): (nat, nat)
    requires |first| >= 6
  {
    (first[2] as int + 256 * first[3] as int, first[4] as int + 256 * first[5] as int)
  }

  lemma SliceIsBody(p: Framed)
    ensures Slice(p, 2, 2 + LengthOf(p)) == Body(p)
    ensures |p| >= 6 ==> Slice(p, 6, 2 + LengthOf(p)) == Body(p)[Skipped(p)..]
  {
  }

  lemma BodiesNext(ps: seq<Framed>, p: Framed)
    ensures Bodies(ps + [p]) == Bodies(ps) + Body(p)
  {
    assert (ps + [p])[..|ps|] == ps;
  }

  lemma {:induction false} BodiesBegin(stream: seq<Framed>, n: nat)
    requires 0 < n <= |stream|
    ensures |Bodies(stream[..n])| >= LengthOf(stream[0])
    ensures Bodies(stream[..n])[..LengthOf(stream[0])] == Body(stream[0])
  {
    hide LengthOf;
    assert stream[..n] == stream[..n - 1] + [stream[n - 1]];
    BodiesNext(stream[..n - 1], stream[n - 1]);
    if n > 1 {
      BodiesBegin(stream, n - 1);
    }
  }

  lemma BodyLength(p: Framed)
    ensures |Body(p)| == LengthOf(p)
  {
  }

  lemma FirstBody(stream: seq<Framed>)
    requires stream != []
    ensures Bodies(stream[..1]) == Body(stream[0])
  {
    hide LengthOf;
    BodiesNext([], stream[0]);
    assert stream[..1] == [] + [stream[0]] && [] + Body(stream[0]) == Body(stream[0]);
  }

  /** Where the host stands before packet n. */
  function At(stream: seq<Framed>, n: nat): Received
    requires 0 < n <= |stream| && |stream[0]| >= 6
  {
    BodiesBegin(stream, n);
    var b := Bodies(stream[..n]);
    Collect(stream[n..], Some(Head(stream[0])), b[Skipped(stream[0])..], |b|)
  }

  lemma FirstPacket(stream: seq<Framed>)
    requires stream != [] && |stream[0]| >= 6 && !IsLast(stream[0])
    ensures var p := stream[0];
            Collect(stream, None, [], 0) == Collect(stream[1..], Some(Head(p)), Body(p)[Skipped(p)..], LengthOf(p))
  {
    var p := stream[0];
    hide LengthOf, IdOf, TotalOf, Slice;
    SliceIsBody(p);
    assert [] + Body(p)[Skipped(p)..] == Body(p)[Skipped(p)..];
  }

  lemma FirstStep(stream: seq<Framed>)
    requires stream != [] && |stream[0]| >= 6 && !IsLast(stream[0])
    ensures Collect(stream, None, [], 0) == At(stream, 1)
  {
    hide LengthOf, IsLast, Collect, Head, Body, Bodies, Skipped;
    FirstPacket(stream);
    FirstBody(stream);
    BodyLength(stream[0]);
  }

  lemma NextStep(stream: seq<Framed>, n: nat)
    requires 0 < n < |stream| && |stream[0]| >= 6 && !IsLast(stream[n])
    ensures At(stream, n) == At(stream, n + 1)
  {
    var p := stream[n];
    BodiesBegin(stream, n);
    SliceIsBody(p);
    BodiesNext(stream[..n], p);
    hide LengthOf, IdOf, TotalOf, Slice, Head;
    assert stream[..n + 1] == stream[..n] + [p];
    assert stream[n..][0] == p && stream[n..][1..] == stream[n + 1..];
    var b, skipped := Bodies(stream[..n]), Skipped(stream[0]);
    assert b[skipped..] + Body(p) == (b + Body(p))[skipped..];
  }

  lemma {:induction false} Advances(stream: seq<Framed>, n: nat)
    requires 0 < n <= |stream| && |stream[0]| >= 6 && NoneLast(stream[..n])
    ensures Collect(stream, None, [], 0) == At(stream, n)
  {
    hide At, IsLast;
    assert !IsLast(stream[..n][n - 1]);
    if n == 1 {
      FirstStep(stream);
    } else {
      assert NoneLast(stream[..n - 1]) by {
        assert forall k :: 0 <= k < n - 1 ==> stream[..n - 1][k] == stream[..n][k];
      }
      Advances(stream, n - 1);
      NextStep(stream, n - 1);
    }
  }

  /** What the packets of a message, the last one among them, give: the message if the first
      packet has command and length and the length is that of the rest, otherwise a size error. */
  function Given(first: Framed, b: seq<byte>): Received {
    if |first| < 6 then IndexError
    else if LengthOf(first) >= 4 && |b| >= 4 && b[2] as int + 256 * b[3] as int == |b| - 4
    then Message(b[0] as int + 256 * b[1] as int, |b| - 4, b[4..])
    else SizeError
  }

  lemma GivenIs(first: Framed, b: seq<byte>)
    requires |first| >= 6 && LengthOf(first) <= |b|
    requires LengthOf(first) >= 4 ==> Head(first) == (b[0] as int + 256 * b[1] as int, b[2] as int + 256 * b[3] as int)
    ensures var data := b[Skipped(first)..];
            Given(first, b)
            == if |data| != Head(first).1 || |data| != |b| - 4 then SizeError
               else Message(Head(first).0, Head(first).1, data)
  {
    hide LengthOf, Head;
  }

  lemma HeadIsFirst(stream: seq<Framed>, n: nat)
    requires n < |stream| && |stream[0]| >= 6
    ensures var b, l := Bodies(stream[..n + 1]), LengthOf(stream[0]);
            && l <= |b|
            && (l >= 4 ==>
                  Head(stream[0]) == (b[0] as int + 256 * b[1] as int, b[2] as int + 256 * b[3] as int))
  {
    BodiesBegin(stream, n + 1);
    var b, l := Bodies(stream[..n + 1]), LengthOf(stream[0]);
    assert l >= 4 ==> b[0] == b[..l][0] && b[1] == b[..l][1] && b[2] == b[..l][2] && b[3] == b[..l][3];
  }

  /** The last packet, with what the host has before it. */
  lemma LastPacket(rest: seq<Framed>, head: (nat, nat), data: seq<byte>, count: nat)
    requires rest != [] && IsLast(rest[0])
    ensures var all, n := data + Body(rest[0]), count + LengthOf(rest[0]);
            Collect(rest, Some(head), data, count)
            == if |all| != head.1 || |all| != n - 4 then SizeError else Message(head.0, head.1, all)
  {
    hide LengthOf, IdOf, TotalOf, Slice;
    SliceIsBody(rest[0]);
  }

  lemma OnlyPacket(p: Framed, rest: seq<Framed>)
    requires rest != [] && rest[0] == p && |p| >= 6 && IsLast(p)
    ensures var data := Body(p)[Skipped(p)..];
            Collect(rest, None, [], 0)
            == if |data| != Head(p).1 || |data| != LengthOf(p) - 4 then SizeError
               else Message(Head(p).0, Head(p).1, data)
  {
    hide LengthOf, IdOf, TotalOf, Slice;
    SliceIsBody(p);
    assert [] + Body(p)[Skipped(p)..] == Body(p)[Skipped(p)..];
  }

  lemma LastAtOnce(stream: seq<Framed>)
    requires stream != [] && |stream[0]| >= 6 && IsLast(stream[0])
    ensures Collect(stream, None, [], 0) == Given(stream[0], Bodies(stream[..1]))
  {
    hide *;
    HeadIsFirst(stream, 0);
    FirstBody(stream);
    BodyLength(stream[0]);
    GivenIs(stream[0], Body(stream[0]));
    OnlyPacket(stream[0], stream);
  }

  lemma LastStep(stream: seq<Framed>, n: nat)
    requires 0 < n < |stream| && |stream[0]| >= 6 && IsLast(stream[n])
    ensures At(stream, n) == Given(stream[0], Bodies(stream[..n + 1]))
  {
    var p := stream[n];
    assert stream[..n + 1] == stream[..n] + [p];
    BodiesNext(stream[..n], p);
    HeadIsFirst(stream, n);
    BodiesBegin(stream, n);
    var b, skipped := Bodies(stream[..n]), Skipped(stream[0]);
    GivenIs(stream[0], b + Body(p));
    assert b[skipped..] + Body(p) == (b + Body(p))[skipped..];
    hide LengthOf, IsLast, Head, Collect, Given, Skipped, Bodies;
    LastPacket(stream[n..], Head(stream[0]), b[skipped..], |b|);
  }

  /** On any stream of packets that hold what they announce: without a packet that bears the
      number of the last one the call times out; otherwise only the packets up to the first such
      packet count, and their bodies decide. */
  lemma ReceivesIff(stream: seq<Framed>, n: nat)
    requires n <= |stream| && NoneLast(stream[..n]) && (n < |stream| ==> IsLast(stream[n]))
    ensures Collect(stream, None, [], 0)
         == if n < |stream| then Given(stream[0], Bodies(stream[..n + 1]))
            else if stream != [] && |stream[0]| < 6 then IndexError else Timeout
  {
    if stream != [] && |stream[0]| >= 6 {
      if n > 0 {
        Advances(stream, n);
        if n < |stream| {
          LastStep(stream, n);
        }
      } else {
        LastAtOnce(stream);
      }
    }
  }
}
