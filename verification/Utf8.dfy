/** UTF-8: the branchless decoder and the walk over a string in blocks of four bytes. */
module Utf8 {
  type Byte = bv8

  // ---------- RFC 3629 ----------

  predicate Tail(b: Byte)
  {
    0x80 <= b <= 0xBF
  }

  /** UTF8-char in section 4 of RFC 3629. */
  predicate IsSequence(v: seq<Byte>)
  {
    || (|v| == 1 && v[0] <= 0x7F)
    || (|v| == 2 && 0xC2 <= v[0] <= 0xDF && Tail(v[1]))
    || (|v| == 3 && Tail(v[2]) &&
        (|| (v[0] == 0xE0 && 0xA0 <= v[1] <= 0xBF)
         || (0xE1 <= v[0] <= 0xEC && Tail(v[1]))
         || (v[0] == 0xED && 0x80 <= v[1] <= 0x9F)
         || (0xEE <= v[0] <= 0xEF && Tail(v[1]))))
    || (|v| == 4 && Tail(v[2]) && Tail(v[3]) &&
        (|| (v[0] == 0xF0 && 0x90 <= v[1] <= 0xBF)
         || (0xF1 <= v[0] <= 0xF3 && Tail(v[1]))
         || (v[0] == 0xF4 && 0x80 <= v[1] <= 0x8F)))
  }

  /** The code point a sequence encodes, the bits of section 3 of RFC 3629. */
  function CodePoint(v: seq<Byte>): bv32
    requires IsSequence(v)
  {
    if |v| == 1 then v[0] as bv32
    else if |v| == 2 then Two(v[0], v[1])
    else if |v| == 3 then Three(v[0], v[1], v[2])
    else Four(v[0], v[1], v[2], v[3])
  }

  function Two(a: Byte, b: Byte): bv32
  {
    ((a & 0x1F) as bv32 << 6) | (b & 0x3F) as bv32
  }

  function Three(a: Byte, b: Byte, c: Byte): bv32
  {
    ((a & 0x0F) as bv32 << 12) | ((b & 0x3F) as bv32 << 6) | (c & 0x3F) as bv32
  }

  function Four(a: Byte, b: Byte, c: Byte, d: Byte): bv32
  {
    ((a & 0x07) as bv32 << 18) | ((b & 0x3F) as bv32 << 12) | ((c & 0x3F) as bv32 << 6) | (d & 0x3F) as bv32
  }

  predicate SequenceOf(s: seq<Byte>, i: nat, n: nat)
  {
    i + n <= |s| && IsSequence(s[i..i + n])
  }

  /** The length of the sequence that starts at i, zero if none does. */
  function SequenceAt(s: seq<Byte>, i: nat): (length: nat)
    requires i <= |s|
    ensures length > 0 ==> SequenceOf(s, i, length)
    ensures length == 0 ==> forall n: nat :: !SequenceOf(s, i, n)
  {
    if SequenceOf(s, i, 1) then 1
    else if SequenceOf(s, i, 2) then 2
    else if SequenceOf(s, i, 3) then 3
    else if SequenceOf(s, i, 4) then 4
    else assert forall n: nat :: SequenceOf(s, i, n) ==> 1 <= n <= 4; 0
  }

  // ---------- utf8_decode ----------

  /** code_point_length_impl: a table over the top five bits. */
  function CodePointLength(c: Byte): (length: nat)
    ensures length <= 4
  {
    var k := c >> 3;
    if k < 16 then 1 else if k < 24 then 0 else if k < 28 then 2 else if k < 30 then 3 else if k == 30 then 4 else 0
  }

  datatype Decoded = Decoded(cp: bv32, error: bv32, next: nat)

  function Flag(b: bool): bv32
  {
    if b then 1 else 0
  }

  /** The four bytes as if they were a four-byte sequence, unused bits shifted out. */
  function Assemble(s0: Byte, s1: Byte, s2: Byte, s3: Byte, length: nat): bv32
  {
    var mask: Byte := if length == 0 then 0x00 else if length == 1 then 0x7f else if length == 2 then 0x1f
                      else if length == 3 then 0x0f else 0x07;
    var c := ((s0 & mask) as bv32 << 18) | ((s1 & 0x3f) as bv32 << 12) | ((s2 & 0x3f) as bv32 << 6)
             | (s3 & 0x3f) as bv32;
    if length == 1 then c >> 18 else if length == 2 then c >> 12 else if length == 3 then c >> 6 else c
  }

  /** The error bits; those about bytes the length does not cover are shifted out. */
  function Errors(c: bv32, s1: Byte, s2: Byte, s3: Byte, length: nat): bv32
  {
    var least: bv32 := if length == 0 then 4194304 else if length == 1 then 0 else if length == 2 then 128
                       else if length == 3 then 2048 else 65536;
    var e := (Flag(c < least) << 6) | (Flag((c >> 11) == 0x1b) << 7) | (Flag(c > 0x10FFFF) << 8)
             | ((s1 & 0xc0) as bv32 >> 2) | ((s2 & 0xc0) as bv32 >> 4) | (s3 >> 6) as bv32;
    var x := e ^ 0x2a;
    if length == 1 then x >> 6 else if length == 2 then x >> 4 else if length == 3 then x >> 2 else x
  }

  function Utf8Decode(s0: Byte, s1: Byte, s2: Byte, s3: Byte): Decoded
  {
    var length := CodePointLength(s0);
    var c := Assemble(s0, s1, s2, s3, length);
    Decoded(c, Errors(c, s1, s2, s3, length), if length == 0 then 1 else length)
  }

  /** No error exactly if one of the prefixes is a well-formed sequence, and then the code
      point and the length are that sequence's. */
  lemma DecodeRight(s0: Byte, s1: Byte, s2: Byte, s3: Byte)
    ensures var d := Utf8Decode(s0, s1, s2, s3);
            var n := CodePointLength(s0);
            var v := [s0, s1, s2, s3][..n];
            && (d.error == 0 <==> n > 0 && IsSequence(v))
            && (d.error == 0 ==> d.cp == CodePoint(v) && d.next == n)
  {
    hide Assemble, Errors, CodePoint, IsSequence;
    var n, all := CodePointLength(s0), [s0, s1, s2, s3];
    if n == 1 {
      assert all[..1] == [s0];
      DecodeOne(s0, s1, s2, s3);
    } else if n == 2 {
      assert all[..2] == [s0, s1];
      DecodeTwo(s0, s1, s2, s3);
    } else if n == 3 {
      assert all[..3] == [s0, s1, s2];
      DecodeThree(s0, s1, s2, s3);
    } else if n == 4 {
      assert all[..4] == [s0, s1, s2, s3];
      DecodeFour(s0, s1, s2, s3);
    } else {
      DecodeNone(s0, s1, s2, s3);
    }
  }

  lemma DecodeNone(s0: Byte, s1: Byte, s2: Byte, s3: Byte)
    ensures Errors(Assemble(s0, s1, s2, s3, 0), s1, s2, s3, 0) != 0
  {
  }

  /** d holds the code point of v, if v is a sequence, and an error otherwise. */
  predicate Decodes(c: bv32, e: bv32, v: seq<Byte>)
  {
    (e == 0 <==> IsSequence(v)) && (e == 0 ==> c == CodePoint(v))
  }

  lemma DecodeOne(s0: Byte, s1: Byte, s2: Byte, s3: Byte)
    requires s0 >> 3 < 16
    ensures var c := Assemble(s0, s1, s2, s3, 1); Decodes(c, Errors(c, s1, s2, s3, 1), [s0])
  {
  }

  lemma DecodeTwo(s0: Byte, s1: Byte, s2: Byte, s3: Byte)
    requires 24 <= s0 >> 3 < 28
    ensures var c := Assemble(s0, s1, s2, s3, 2); Decodes(c, Errors(c, s1, s2, s3, 2), [s0, s1])
  {
  }

  lemma DecodeThree(s0: Byte, s1: Byte, s2: Byte, s3: Byte)
    requires 28 <= s0 >> 3 < 30
    ensures var c := Assemble(s0, s1, s2, s3, 3); Decodes(c, Errors(c, s1, s2, s3, 3), [s0, s1, s2])
  {
    ErrorThree(s0, s1, s2, s3);
    if IsSequence([s0, s1, s2]) {
      ValueThree(s0, s1, s2, s3);
    }
    hide IsSequence, CodePoint, Errors, Assemble;
  }

  lemma ErrorThree(s0: Byte, s1: Byte, s2: Byte, s3: Byte)
    requires 28 <= s0 >> 3 < 30
    ensures Errors(Assemble(s0, s1, s2, s3, 3), s1, s2, s3, 3) == 0 <==> IsSequence([s0, s1, s2])
  {
  }

  lemma ValueThree(s0: Byte, s1: Byte, s2: Byte, s3: Byte)
    requires 28 <= s0 >> 3 < 30 && IsSequence([s0, s1, s2])
    ensures Assemble(s0, s1, s2, s3, 3) == CodePoint([s0, s1, s2])
  {
  }

  lemma DecodeFour(s0: Byte, s1: Byte, s2: Byte, s3: Byte)
    requires s0 >> 3 == 30
    ensures var c := Assemble(s0, s1, s2, s3, 4); Decodes(c, Errors(c, s1, s2, s3, 4), [s0, s1, s2, s3])
  {
    ErrorFour(s0, s1, s2, s3);
    if IsSequence([s0, s1, s2, s3]) {
      ValueFour(s0, s1, s2, s3);
    }
    hide IsSequence, CodePoint, Errors, Assemble;
  }

  lemma ErrorFour(s0: Byte, s1: Byte, s2: Byte, s3: Byte)
    requires s0 >> 3 == 30
    ensures Errors(Assemble(s0, s1, s2, s3, 4), s1, s2, s3, 4) == 0 <==> IsSequence([s0, s1, s2, s3])
  {
  }

  lemma ValueFour(s0: Byte, s1: Byte, s2: Byte, s3: Byte)
    requires s0 >> 3 == 30 && IsSequence([s0, s1, s2, s3])
    ensures Assemble(s0, s1, s2, s3, 4) == CodePoint([s0, s1, s2, s3])
  {
  }

  // ---------- for_each_codepoint ----------

  /** What the callback is given: a code point, or INVALID, and the bytes it was read from. */
  datatype Call = Call(cp: bv32, view: seq<Byte>)

  const INVALID: bv32 := 0xFFFF_FFFF

  /** A well-formed sequence, or else one single byte. */
  function CallAt(s: seq<Byte>, i: nat): (call: Call)
    requires i < |s|
    ensures 1 <= |call.view| <= 4 && i + |call.view| <= |s| && call.view == s[i..i + |call.view|]
    ensures IsSequence(call.view) ==> call.cp == CodePoint(call.view) && call.cp <= 0x10FFFF
    ensures !IsSequence(call.view) ==> call.cp == INVALID
  {
    var n := SequenceAt(s, i);
    if n > 0 then CodePointSmall(s[i..i + n]); Call(CodePoint(s[i..i + n]), s[i..i + n])
    else assert !SequenceOf(s, i, 1); Call(INVALID, s[i..i + 1])
  }

  lemma CodePointSmall(v: seq<Byte>)
    requires IsSequence(v)
    ensures CodePoint(v) <= 0x10FFFF && !(0xD800 <= CodePoint(v) <= 0xDFFF)
  {
  }

  /** All the calls for the string from i on. */
  function Walk(s: seq<Byte>, i: nat): seq<Call>
    requires i <= |s|
    decreases |s| - i
  {
    if i == |s| then [] else var call := CallAt(s, i); [call] + Walk(s, i + |call.view|)
  }

  /** The calls made before the callback stops: it is asked after each of them. */
  function Until(goOn: seq<Call> -> bool, made: seq<Call>, left: seq<Call>): seq<Call>
    decreases |left|
  {
    if left == [] then made
    else
      var calls := made + [left[0]];
      if goOn(calls) then Until(goOn, calls, left[1..]) else calls
  }

  function ByteAt(s: seq<Byte>, i: nat): Byte
  {
    if i < |s| then s[i] else 0
  }

  /** Reading zeros past the end gives the same sequences: no zero continues one. */
  lemma DecodeIsCall(s: seq<Byte>, i: nat, d: Decoded)
    requires i < |s| && d == Utf8Decode(s[i], ByteAt(s, i + 1), ByteAt(s, i + 2), ByteAt(s, i + 3))
    ensures var call := CallAt(s, i);
            && call.cp == (if d.error != 0 then INVALID else d.cp)
            && |call.view| == if d.error != 0 then 1 else d.next
  {
    hide Utf8Decode, CodePoint, IsSequence, CodePointLength, SequenceAt, INVALID;
    var bytes := [s[i], ByteAt(s, i + 1), ByteAt(s, i + 2), ByteAt(s, i + 3)];
    DecodeRight(bytes[0], bytes[1], bytes[2], bytes[3]);
    assert [bytes[0], bytes[1], bytes[2], bytes[3]] == bytes;
    var n := CodePointLength(s[i]);
    FirstByteDecides(s, i, SequenceAt(s, i));
    if d.error == 0 {
      BytesInside(s, i, n, bytes);
      assert SequenceOf(s, i, n);
    }
    SequenceDecodes(s, i, bytes);
  }

  /** A sequence found among the bytes lies inside the string. */
  lemma BytesInside(s: seq<Byte>, i: nat, n: nat, bytes: seq<Byte>)
    requires i < |s| && bytes == [s[i], ByteAt(s, i + 1), ByteAt(s, i + 2), ByteAt(s, i + 3)]
    requires 1 <= n <= 4 && IsSequence(bytes[..n])
    ensures i + n <= |s| && bytes[..n] == s[i..i + n]
  {
    LastByteNonzero(bytes[..n]);
    hide IsSequence;
    if n == 2 {
      assert bytes[..2][1] == ByteAt(s, i + 1);
    } else if n == 3 {
      assert bytes[..3][2] == ByteAt(s, i + 2);
    } else if n == 4 {
      assert bytes[..4][3] == ByteAt(s, i + 3);
    }
    assert bytes[..n] == s[i..i + n];
  }

  lemma SequenceDecodes(s: seq<Byte>, i: nat, bytes: seq<Byte>)
    requires i < |s| && bytes == [s[i], ByteAt(s, i + 1), ByteAt(s, i + 2), ByteAt(s, i + 3)]
    ensures var n := CodePointLength(s[i]);
            SequenceAt(s, i) > 0 ==> n == SequenceAt(s, i) && IsSequence(bytes[..n])
  {
    var n := SequenceAt(s, i);
    hide IsSequence, CodePointLength, SequenceAt;
    FirstByteDecides(s, i, n);
    if n > 0 {
      assert bytes[..n] == s[i..i + n];
    }
  }

  lemma FirstByteDecides(s: seq<Byte>, i: nat, n: nat)
    requires i < |s| && (n > 0 ==> SequenceOf(s, i, n))
    ensures n > 0 ==> n == CodePointLength(s[i])
  {
  }

  lemma LastByteNonzero(v: seq<Byte>)
    requires IsSequence(v)
    ensures forall j :: 1 <= j < |v| ==> v[j] != 0
  {
  }

  /** One call of the callback; the block read lies inside the buffer. */
  method DecodeBlock(buf: seq<Byte>, at: nat, s: seq<Byte>, p: nat) returns (call: Call, next: nat)
    requires at + 4 <= |buf| && p < |s|
    requires buf[at] == ByteAt(s, p) && buf[at + 1] == ByteAt(s, p + 1)
    requires buf[at + 2] == ByteAt(s, p + 2) && buf[at + 3] == ByteAt(s, p + 3)
    ensures call == CallAt(s, p) && next == |call.view|
  {
    var d := Utf8Decode(buf[at], buf[at + 1], buf[at + 2], buf[at + 3]);
    DecodeIsCall(s, p, d);
    next := if d.error != 0 then 1 else d.next;
    call := Call(if d.error != 0 then INVALID else d.cp, s[p..p + next]);
  }

  /** The bytes from start on, with zeros behind them. */
  function Padded(s: seq<Byte>, start: nat): (buf: seq<Byte>)
    requires start < |s| < start + 4
    ensures |buf| == 7
  {
    s[start..] + seq(7 - (|s| - start), _ => 0)
  }

  lemma PaddedByte(s: seq<Byte>, start: nat, j: nat)
    requires start < |s| < start + 4 && j < 7
    ensures Padded(s, start)[j] == ByteAt(s, start + j)
  {
  }

  /** The rest of the string, fewer than four bytes, from a buffer padded with zeros. */
  method TailCodepoints(s: seq<Byte>, start: nat, goOn: seq<Call> -> bool, made: seq<Call>) returns (calls: seq<Call>)
    requires start < |s| < start + 4
    ensures calls == Until(goOn, made, Walk(s, start))
  {
    hide *;
    var buf := Padded(s, start);
    calls := made;
    var p, at := start, 0;
    ghost var all := Until(goOn, made, Walk(s, start));
    LeadsOn(goOn, made, s, start);
    while true
      invariant 0 <= at < |s| - start && p == start + at && Leads(goOn, calls, s, p, all)
      decreases |s| - at
    {
      var call, next := TailBlock(s, start, buf, at);
      UntilStep(goOn, calls, s, p, all);
      calls := calls + [call];
      if !goOn(calls) {
        return;
      }
      p := p + next;
      at := at + next;
      if at >= |s| - start {
        break;
      }
    }
    WalkEnds(goOn, calls, s, all);
  }

  lemma CallInside(s: seq<Byte>, p: nat)
    requires p < |s|
    ensures 1 <= |CallAt(s, p).view| <= |s| - p
  {
    hide IsSequence, CodePoint, SequenceAt;
  }

  method TailBlock(s: seq<Byte>, start: nat, buf: seq<Byte>, at: nat) returns (call: Call, next: nat)
    requires start < |s| < start + 4 && buf == Padded(s, start) && at < |s| - start
    ensures call == CallAt(s, start + at) && 1 <= next == |call.view| <= |s| - start - at
  {
    hide *;
    PaddedByte(s, start, at);
    PaddedByte(s, start, at + 1);
    PaddedByte(s, start, at + 2);
    PaddedByte(s, start, at + 3);
    CallInside(s, start + at);
    call, next := DecodeBlock(buf, at, s, start + at);
  }

  /** for_each_codepoint: blocks of four bytes in place, then the rest. */
  method ForEachCodepoint(s: seq<Byte>, goOn: seq<Call> -> bool) returns (calls: seq<Call>)
    ensures calls == Until(goOn, [], Walk(s, 0))
  {
    hide Until, Walk, CallAt, Leads, IsSequence, CodePoint;
    calls := [];
    var p := 0;
    ghost var all := Until(goOn, [], Walk(s, 0));
    LeadsOn(goOn, [], s, 0);
    if |s| >= 4 {
      var end := |s| - 4 + 1;
      while p < end
        invariant 0 <= p <= |s| && Leads(goOn, calls, s, p, all)
      {
        var call, next := DecodeBlock(s, p, s, p);
        UntilStep(goOn, calls, s, p, all);
        calls := calls + [call];
        if !goOn(calls) {
          return;
        }
        p := p + next;
      }
    }
    if |s| - p != 0 {
      LeadsOn(goOn, calls, s, p);
      calls := TailCodepoints(s, p, goOn, calls);
    } else {
      WalkEnds(goOn, calls, s, all);
    }
  }

  /** Going on from here gives the same calls in the end. */
  ghost predicate Leads(goOn: seq<Call> -> bool, made: seq<Call>, s: seq<Byte>, p: nat, all: seq<Call>)
  {
    p <= |s| && Until(goOn, made, Walk(s, p)) == all
  }

  lemma LeadsOn(goOn: seq<Call> -> bool, made: seq<Call>, s: seq<Byte>, p: nat)
    requires p <= |s|
    ensures forall all :: Leads(goOn, made, s, p, all) <==> Until(goOn, made, Walk(s, p)) == all
  {
    hide Walk, Until;
  }

  lemma UntilStep(goOn: seq<Call> -> bool, made: seq<Call>, s: seq<Byte>, p: nat, all: seq<Call>)
    requires p < |s| && Leads(goOn, made, s, p, all)
    ensures var call := CallAt(s, p);
            if goOn(made + [call]) then Leads(goOn, made + [call], s, p + |call.view|, all) else made + [call] == all
  {
    hide CallAt;
    var call := CallAt(s, p);
    assert Walk(s, p)[1..] == Walk(s, p + |call.view|);
  }

  lemma WalkEnds(goOn: seq<Call> -> bool, made: seq<Call>, s: seq<Byte>, all: seq<Call>)
    requires Leads(goOn, made, s, |s|, all)
    ensures made == all
  {
  }

  // ---------- What a whole walk gives ----------

  function Views(calls: seq<Call>): seq<Byte>
  {
    if calls == [] then [] else calls[0].view + Views(calls[1..])
  }

  /** A callback that never stops sees the whole walk. */
  lemma {:induction false} NeverStopping(goOn: seq<Call> -> bool, made: seq<Call>, left: seq<Call>)
    requires forall calls :: goOn(calls)
    ensures Until(goOn, made, left) == made + left
    decreases |left|
  {
    if left != [] {
      NeverStopping(goOn, made + [left[0]], left[1..]);
    }
  }

  predicate Sound(call: Call)
  {
    call.view != [] && if IsSequence(call.view) then call.cp == CodePoint(call.view) else call.cp == INVALID
  }

  /** The views are not empty and concatenate to the string; a code point is reported
      exactly for the well-formed ones. */
  lemma {:induction false} WalkSplits(s: seq<Byte>, i: nat)
    requires i <= |s|
    ensures Views(Walk(s, i)) == s[i..]
    ensures forall k :: 0 <= k < |Walk(s, i)| ==> Sound(Walk(s, i)[k])
    decreases |s| - i
  {
    hide CallAt, IsSequence, CodePoint;
    if i < |s| {
      var call := CallAt(s, i);
      var rest := Walk(s, i + |call.view|);
      WalkSplits(s, i + |call.view|);
      assert Walk(s, i) == [call] + rest && Walk(s, i)[1..] == rest;
      assert s[i..] == call.view + s[i + |call.view|..];
    }
  }

  predicate StartsSequence(s: seq<Byte>, p: nat)
  {
    exists n: nat :: n <= 4 && SequenceOf(s, p, n)
  }

  /** The call is right for the place p: a well-formed sequence is taken whole, and where
      none starts a single byte is reported as an error. */
  predicate ReadsAt(s: seq<Byte>, p: nat, call: Call)
  {
    && call.view != [] && p + |call.view| <= |s| && call.view == s[p..p + |call.view|]
    && if StartsSequence(s, p) then IsSequence(call.view) && call.cp == CodePoint(call.view)
       else |call.view| == 1 && call.cp == INVALID
  }

  /** Every call is right for the place behind the views before it. */
  lemma {:induction false} CallsRead(s: seq<Byte>, i: nat, k: nat)
    requires i <= |s| && k < |Walk(s, i)|
    ensures ReadsAt(s, i + |Views(Walk(s, i)[..k])|, Walk(s, i)[k])
    decreases k
  {
    hide CallAt, ReadsAt, IsSequence, CodePoint, Views;
    var call := CallAt(s, i);
    var after := i + |call.view|;
    var rest := Walk(s, after);
    assert Walk(s, i) == [call] + rest;
    hide Walk;
    if k == 0 {
      FirstReads(s, i);
      NoViews();
      assert ([call] + rest)[..0] == [];
    } else {
      CallsRead(s, after, k - 1);
      assert ([call] + rest)[..k] == [call] + rest[..k - 1];
      ViewsBehind(call, rest[..k - 1]);
      assert ([call] + rest)[k] == rest[k - 1];
    }
  }

  lemma NoViews()
    ensures Views([]) == []
  {
  }

  lemma ViewsBehind(call: Call, rest: seq<Call>)
    ensures |Views([call] + rest)| == |call.view| + |Views(rest)|
  {
    assert ([call] + rest)[1..] == rest;
  }

  lemma FirstReads(s: seq<Byte>, i: nat)
    requires i < |s|
    ensures ReadsAt(s, i, CallAt(s, i))
  {
    hide CodePoint;
  }
}
