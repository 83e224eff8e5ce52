/** Between UTF-8 and UTF-16: the constructor of utf8_to_utf16 and the encoder of time strings. */
module Utf16 {
  import opened Utf8

  datatype Result<T> = Success(value: T) | Failure

  // ---------- RFC 3629 and RFC 2781 ----------

  predicate Scalar(cp: bv32)
  {
    cp <= 0x10FFFF && !(0xD800 <= cp <= 0xDFFF)
  }

  /** Section 3 of RFC 3629. */
  function ToUtf8(cp: bv32): seq<Byte>
    requires Scalar(cp)
  {
    if cp <= 0x7F then [cp as Byte]
    else if cp <= 0x7FF then [(cp >> 6) as Byte | 0xC0, Continued(cp)]
    else if cp <= 0xFFFF then [(cp >> 12) as Byte | 0xE0, Continued(cp >> 6), Continued(cp)]
    else [(cp >> 18) as Byte | 0xF0, Continued(cp >> 12), Continued(cp >> 6), Continued(cp)]
  }

  /** A tail byte with the low six bits. */
  function Continued(bits: bv32): Byte
  {
    (bits & 0x3F) as Byte | 0x80
  }

  /** Section 2.1 of RFC 2781. */
  function ToUtf16(cp: bv32): seq<bv32>
    requires Scalar(cp)
  {
    if cp < 0x10000 then [cp]
    else [HighSurrogate(cp), LowSurrogate(cp)]
  }

  /** The high and the low ten bits of cp - 0x10000. */
  function HighSurrogate(cp: bv32): bv32
  {
    0xD800 | ((cp - 0x10000) >> 10)
  }

  function LowSurrogate(cp: bv32): bv32
  {
    0xDC00 | ((cp - 0x10000) & 0x3FF)
  }

  /** Section 2.2 of RFC 2781. */
  function Combined(hi: bv32, lo: bv32): bv32
  {
    (((hi & 0x3FF) << 10) | (lo & 0x3FF)) + 0x10000
  }

  predicate Scalars(cps: seq<bv32>)
  {
    forall i :: 0 <= i < |cps| ==> Scalar(cps[i])
  }

  function Utf8Of(cps: seq<bv32>): seq<Byte>
    requires Scalars(cps)
  {
    if cps == [] then [] else ToUtf8(cps[0]) + Utf8Of(cps[1..])
  }

  function Utf16Of(cps: seq<bv32>): seq<bv32>
    requires Scalars(cps)
  {
    if cps == [] then [] else ToUtf16(cps[0]) + Utf16Of(cps[1..])
  }

  /** Section 2.2 of RFC 2781, from unit i on; in wide units every unit is a code point. */
  function FromUnits(units: seq<bv32>, i: nat, wide: bool): (r: Result<seq<bv32>>)
    requires i <= |units|
    ensures r.Success? ==> Scalars(r.value)
    decreases |units| - i
  {
    if i == |units| then Success([])
    else
      var w1 := units[i];
      if !wide && 0xD800 <= w1 <= 0xDFFF then
        if w1 > 0xDBFF || i + 1 == |units| || !(0xDC00 <= units[i + 1] <= 0xDFFF) then Failure
        else Prepend(Combined(w1, units[i + 1]), FromUnits(units, i + 2, wide))
      else if Scalar(w1) then Prepend(w1, FromUnits(units, i + 1, wide))
      else Failure
  }

  function Prepend(cp: bv32, rest: Result<seq<bv32>>): (r: Result<seq<bv32>>)
    ensures r.Success? ==> rest.Success? && r.value == [cp] + rest.value
  {
    if rest.Success? then Success([cp] + rest.value) else Failure
  }

  // ---------- Single code points ----------

  lemma SequenceEncodes(v: seq<Byte>)
    requires IsSequence(v)
    ensures Scalar(CodePoint(v)) && ToUtf8(CodePoint(v)) == v
  {
    hide Two, Three, Four, Continued;
    if |v| == 1 {
      assert v == [v[0]];
    } else if |v| == 2 {
      TwoBytes(v[0], v[1]);
      assert v == [v[0], v[1]];
    } else if |v| == 3 {
      ThreeEncode(v);
    } else {
      FourEncode(v);
    }
  }

  lemma ThreeRange(v: seq<Byte>)
    requires IsSequence(v) && |v| == 3
    ensures CodePoint(v) == Three(v[0], v[1], v[2]) && v == [v[0], v[1], v[2]]
    ensures 0xE0 <= v[0] <= 0xEF && Tail(v[1]) && Tail(v[2])
    ensures (v[0] == 0xE0 ==> v[1] >= 0xA0) && (v[0] == 0xED ==> v[1] < 0xA0)
  {
    hide Three;
  }

  lemma ThreeEncode(v: seq<Byte>)
    requires IsSequence(v) && |v| == 3
    ensures Scalar(CodePoint(v)) && ToUtf8(CodePoint(v)) == v
  {
    hide *;
    ThreeRange(v);
    ThreeBack(v);
  }

  lemma ThreeBack(v: seq<Byte>)
    requires IsSequence(v) && |v| == 3
    ensures var cp := Three(v[0], v[1], v[2]); Scalar(cp) && ToUtf8(cp) == v
  {
    hide Three, Continued, ToUtf8, IsSequence, CodePoint, Tail;
    var cp := Three(v[0], v[1], v[2]);
    ThreeRange(v);
    ThreeBytes(v[0], v[1], v[2], cp);
    ThreeText(cp, v);
  }

  lemma ThreeText(cp: bv32, v: seq<Byte>)
    requires |v| == 3 && 0x7FF < cp <= 0xFFFF && Scalar(cp) && (cp >> 12) as Byte | 0xE0 == v[0]
    requires Continued(cp >> 6) == v[1] && Continued(cp) == v[2]
    ensures ToUtf8(cp) == v
  {
    hide Continued;
    assert ToUtf8(cp)[0] == v[0] && ToUtf8(cp)[1] == v[1];
  }

  lemma FourRange(v: seq<Byte>)
    requires IsSequence(v) && |v| == 4
    ensures CodePoint(v) == Four(v[0], v[1], v[2], v[3]) && v == [v[0], v[1], v[2], v[3]]
    ensures 0xF0 <= v[0] <= 0xF4 && Tail(v[1]) && Tail(v[2]) && Tail(v[3])
    ensures (v[0] == 0xF0 ==> v[1] >= 0x90) && (v[0] == 0xF4 ==> v[1] <= 0x8F)
  {
    hide Four;
  }

  lemma FourEncode(v: seq<Byte>)
    requires IsSequence(v) && |v| == 4
    ensures Scalar(CodePoint(v)) && ToUtf8(CodePoint(v)) == v
  {
    hide *;
    FourRange(v);
    FourBack(v);
  }

  lemma FourBack(v: seq<Byte>)
    requires IsSequence(v) && |v| == 4
    ensures var cp := Four(v[0], v[1], v[2], v[3]); Scalar(cp) && ToUtf8(cp) == v
  {
    hide Four, Continued, ToUtf8, IsSequence, CodePoint, Tail;
    var cp := Four(v[0], v[1], v[2], v[3]);
    FourRange(v);
    FourBytes(v[0], v[1], v[2], v[3], cp);
    FourText(cp, v);
  }

  lemma FourText(cp: bv32, v: seq<Byte>)
    requires |v| == 4 && 0xFFFF < cp <= 0x10FFFF && cp >> 18 <= 4 && (cp >> 18) as Byte | 0xF0 == v[0]
    requires Continued(cp >> 12) == v[1] && Continued(cp >> 6) == v[2] && Continued(cp) == v[3]
    ensures ToUtf8(cp) == v
  {
    hide Continued;
    assert ToUtf8(cp)[0] == v[0] && ToUtf8(cp)[1] == v[1] && ToUtf8(cp)[2] == v[2];
  }

  lemma TwoBytes(a: Byte, b: Byte)
    requires 0xC2 <= a <= 0xDF && Tail(b)
    ensures var cp := Two(a, b);
            0x7F < cp <= 0x7FF && (cp >> 6) as Byte | 0xC0 == a && Continued(cp) == b
  {
  }

  lemma ThreeBytes(a: Byte, b: Byte, c: Byte, cp: bv32)
    requires 0xE0 <= a <= 0xEF && Tail(b) && Tail(c) && cp == Three(a, b, c)
    ensures cp <= 0xFFFF && (cp > 0x7FF <==> a != 0xE0 || b >= 0xA0)
            && (0xD800 <= cp <= 0xDFFF <==> a == 0xED && b >= 0xA0)
            && (cp >> 12) as Byte | 0xE0 == a && Continued(cp >> 6) == b && Continued(cp) == c
  {
  }

  lemma FourBytes(a: Byte, b: Byte, c: Byte, d: Byte, cp: bv32)
    requires 0xF0 <= a <= 0xF4 && Tail(b) && Tail(c) && Tail(d) && cp == Four(a, b, c, d)
    ensures (cp > 0xFFFF <==> a != 0xF0 || b >= 0x90) && (cp <= 0x10FFFF <==> a < 0xF4 || b <= 0x8F)
            && (cp >> 18 <= 4 && (cp >> 18) as Byte | 0xF0 == a)
            && Continued(cp >> 12) == b && Continued(cp >> 6) == c && Continued(cp) == d
  {
  }

  lemma EncodedIsSequence(cp: bv32)
    requires Scalar(cp)
    ensures IsSequence(ToUtf8(cp)) && CodePoint(ToUtf8(cp)) == cp
  {
    if cp <= 0x7F {
    } else if cp <= 0x7FF {
      EncodedTwo(cp);
    } else if cp <= 0xFFFF {
      EncodedThree(cp);
      hide Three, Continued;
    } else {
      EncodedFour(cp);
      hide Four, Continued;
    }
  }

  lemma EncodedTwo(cp: bv32)
    requires 0x7F < cp <= 0x7FF
    ensures var a, b := (cp >> 6) as Byte | 0xC0, Continued(cp);
            0xC2 <= a <= 0xDF && Tail(b) && Two(a, b) == cp
  {
  }

  lemma EncodedThree(cp: bv32)
    requires 0x7FF < cp <= 0xFFFF
    ensures var a, b, c := (cp >> 12) as Byte | 0xE0, Continued(cp >> 6), Continued(cp);
            && 0xE0 <= a <= 0xEF && Tail(b) && Tail(c) && Three(a, b, c) == cp
            && (a == 0xE0 ==> b >= 0xA0) && (a == 0xED ==> (0xD800 <= cp <= 0xDFFF <==> b >= 0xA0))
  {
  }

  lemma EncodedFour(cp: bv32)
    requires 0xFFFF < cp <= 0x10FFFF
    ensures var a, b, c, d := (cp >> 18) as Byte | 0xF0, Continued(cp >> 12), Continued(cp >> 6), Continued(cp);
            && 0xF0 <= a <= 0xF4 && Tail(b) && Tail(c) && Tail(d) && Four(a, b, c, d) == cp
            && (a == 0xF0 ==> b >= 0x90) && (a == 0xF4 ==> b <= 0x8F)
  {
  }

  /** The encoder recombines surrogates with one constant, 0xD800 << 10, 0xDC00 and the
      offset 0x10000 in one, modulo 2^32. */
  lemma Recombines(hi: bv32, lo: bv32)
    requires 0xD800 <= hi <= 0xDBFF && 0xDC00 <= lo <= 0xDFFF
    ensures (hi << 10) + lo - 0x35fdc00 == Combined(hi, lo)
    ensures 0x10000 <= Combined(hi, lo) <= 0x10FFFF
  {
  }

  /** The surrogates the constructor computes are the ones of RFC 2781, and combine again. */
  lemma SurrogateSums(cp: bv32)
    requires 0x10000 <= cp <= 0x10FFFF
    ensures 0xD800 + ((cp - 0x10000) >> 10) == HighSurrogate(cp)
    ensures 0xDC00 + ((cp - 0x10000) & 0x3FF) == LowSurrogate(cp)
  {
  }

  lemma SurrogateRanges(cp: bv32)
    requires 0x10000 <= cp <= 0x10FFFF
    ensures 0xD800 <= HighSurrogate(cp) <= 0xDBFF && 0xDC00 <= LowSurrogate(cp) <= 0xDFFF
  {
  }

  lemma SurrogatesCombine(cp: bv32)
    requires 0x10000 <= cp <= 0x10FFFF
    ensures Combined(HighSurrogate(cp), LowSurrogate(cp)) == cp
  {
  }

  lemma SurrogatesOf(hi: bv32, lo: bv32)
    requires 0xD800 <= hi <= 0xDBFF && 0xDC00 <= lo <= 0xDFFF
    ensures HighSurrogate(Combined(hi, lo)) == hi && LowSurrogate(Combined(hi, lo)) == lo
  {
  }

  // ---------- utf8_to_utf16 ----------

  /** The code points of the calls up to the first invalid one. */
  function CodePoints(calls: seq<Call>): (cps: seq<bv32>)
  {
    if calls == [] || calls[0].cp == INVALID then [] else [calls[0].cp] + CodePoints(calls[1..])
  }

  predicate AllValid(calls: seq<Call>)
  {
    forall i :: 0 <= i < |calls| ==> calls[i].cp != INVALID
  }

  lemma WalkCons(s: seq<Byte>, i: nat)
    requires i < |s|
    ensures Walk(s, i) == [CallAt(s, i)] + Walk(s, i + |CallAt(s, i).view|)
  {
    hide CallAt;
  }

  lemma CodePointsCons(call: Call, rest: seq<Call>)
    ensures AllValid([call] + rest) <==> call.cp != INVALID && AllValid(rest)
    ensures call.cp != INVALID ==> CodePoints([call] + rest) == [call.cp] + CodePoints(rest)
  {
    var calls := [call] + rest;
    assert calls[1..] == rest && calls[0] == call;
    assert forall i :: 0 <= i < |rest| ==> rest[i] == calls[i + 1];
  }

  lemma CallEncodes(s: seq<Byte>, i: nat)
    requires i < |s| && CallAt(s, i).cp != INVALID
    ensures var call := CallAt(s, i);
            Scalar(call.cp) && ToUtf8(call.cp) == call.view && i + |call.view| <= |s| && call.view == s[i..i + |call.view|]
  {
    hide *;
    SequenceEncodes(CallAt(s, i).view);
  }

  /** A sequence in the string makes a call with its code point. */
  lemma CallDecodes(s: seq<Byte>, i: nat, cp: bv32)
    requires i < |s| && Scalar(cp) && i + |ToUtf8(cp)| <= |s| && s[i..i + |ToUtf8(cp)|] == ToUtf8(cp)
    ensures CallAt(s, i) == Call(cp, ToUtf8(cp)) && cp != INVALID
  {
    EncodedIsSequence(cp);
    ScalarIsValid(cp);
    hide *;
    CallOfSequence(s, i, |ToUtf8(cp)|);
  }

  lemma Utf8Cons(cp: bv32, rest: seq<bv32>)
    requires Scalars(rest) && Scalar(cp)
    ensures Scalars([cp] + rest) && Utf8Of([cp] + rest) == ToUtf8(cp) + Utf8Of(rest)
  {
    hide Scalar, ToUtf8;
    assert ([cp] + rest)[1..] == rest;
  }

  /** A string all of whose calls carry a code point is the UTF-8 form of these. */
  lemma {:induction false} ValidIsEncoded(s: seq<Byte>, i: nat)
    requires i <= |s| && AllValid(Walk(s, i))
    ensures Scalars(CodePoints(Walk(s, i))) && Utf8Of(CodePoints(Walk(s, i))) == s[i..]
    decreases |s| - i
  {
    hide *;
    NothingLeft(s);
    if i < |s| {
      WalkCons(s, i);
      var call := CallAt(s, i);
      var rest := Walk(s, i + |call.view|);
      CodePointsCons(call, rest);
      ValidIsEncoded(s, i + |call.view|);
      CallEncodes(s, i);
      Utf8Cons(call.cp, CodePoints(rest));
      assert s[i..] == call.view + s[i + |call.view|..];
    }
  }

  lemma NothingLeft(s: seq<Byte>)
    ensures Walk(s, |s|) == [] && AllValid([]) && CodePoints([]) == [] && Scalars([]) && Utf8Of([]) == []
  {
  }

  /** And the UTF-8 form of code points is walked as exactly these. */
  lemma {:induction false} EncodedIsValid(before: seq<Byte>, cps: seq<bv32>)
    requires Scalars(cps)
    ensures var s := before + Utf8Of(cps);
            AllValid(Walk(s, |before|)) && CodePoints(Walk(s, |before|)) == cps
    decreases |cps|
  {
    hide *;
    NothingLeft(before);
    assert before + [] == before;
    if cps != [] {
      var cp, rest := cps[0], cps[1..];
      assert cps == [cp] + rest;
      ScalarsSplit(cp, rest);
      Utf8Cons(cp, rest);
      var s, v := before + Utf8Of(cps), ToUtf8(cp);
      SequenceNonempty(cp);
      EncodedIsValid(before + v, rest);
      assert s == (before + v) + Utf8Of(rest);
      assert s[|before|..|before| + |v|] == v;
      CallDecodes(s, |before|, cp);
      WalkCons(s, |before|);
      CodePointsCons(CallAt(s, |before|), Walk(s, |before| + |v|));
    }
  }

  lemma ScalarsSplit(cp: bv32, rest: seq<bv32>)
    requires Scalars([cp] + rest)
    ensures Scalar(cp) && Scalars(rest)
  {
    var cps := [cp] + rest;
    assert cps[0] == cp && forall i :: 0 <= i < |rest| ==> rest[i] == cps[i + 1];
  }

  lemma ScalarIsValid(cp: bv32)
    requires Scalar(cp)
    ensures cp != INVALID
  {
  }

  lemma SequenceNonempty(cp: bv32)
    requires Scalar(cp)
    ensures 1 <= |ToUtf8(cp)| <= 4
  {
  }

  lemma CallOfSequence(s: seq<Byte>, i: nat, n: nat)
    requires i < |s| && i + n <= |s| && IsSequence(s[i..i + n])
    ensures CallAt(s, i).view == s[i..i + n] && CallAt(s, i).cp == CodePoint(s[i..i + n])
  {
    assert |s[i..i + n]| >= 1;
    assert SequenceOf(s, i, n);
    FirstByteDecides(s, i, n);
    FirstByteDecides(s, i, SequenceAt(s, i));
    hide IsSequence, CodePointLength, CodePoint;
  }

  /** The callback goes on unless it throws. */
  predicate Continues(calls: seq<Call>)
  {
    calls == [] || calls[|calls| - 1].cp != INVALID
  }

  /** With it the walk ends at the first invalid call, or not before the end. */
  lemma FirstValid(calls: seq<Call>)
    requires calls != []
    ensures AllValid(calls) <==> calls[0].cp != INVALID && AllValid(calls[1..])
  {
    assert calls == [calls[0]] + calls[1..];
  }

  lemma LastValid(made: seq<Call>, call: Call)
    requires AllValid(made)
    ensures AllValid(made + [call]) <==> call.cp != INVALID
    ensures Continues(made + [call]) <==> call.cp != INVALID
  {
    assert call.cp == INVALID ==> (made + [call])[|made|].cp == INVALID;
  }

  lemma {:induction false} UntilInvalid(made: seq<Call>, left: seq<Call>)
    requires AllValid(made)
    ensures var calls := Until(Continues, made, left);
            if AllValid(left) then calls == made + left else !Continues(calls)
    decreases |left|
  {
    if left != [] {
      var calls := made + [left[0]];
      LastValid(made, left[0]);
      FirstValid(left);
      hide AllValid, Continues;
      if left[0].cp != INVALID {
        UntilInvalid(calls, left[1..]);
        assert calls + left[1..] == made + left;
      }
    }
  }

  lemma {:induction false} CodePointsOfValid(calls: seq<Call>)
    requires AllValid(calls)
    ensures |CodePoints(calls)| == |calls| && forall i :: 0 <= i < |calls| ==> CodePoints(calls)[i] == calls[i].cp
  {
    if calls != [] {
      CodePointsOfValid(calls[1..]);
    }
  }

  lemma {:induction false} Utf16Snoc(cps: seq<bv32>, cp: bv32)
    requires Scalars(cps) && Scalar(cp)
    ensures Scalars(cps + [cp]) && Utf16Of(cps + [cp]) == Utf16Of(cps) + ToUtf16(cp)
  {
    hide ToUtf16, Scalar;
    if cps != [] {
      Utf16Snoc(cps[1..], cp);
      assert (cps + [cp])[1..] == cps[1..] + [cp];
    } else {
      assert (cps + [cp])[1..] == [];
      assert Utf16Of([cp]) == ToUtf16(cp) + Utf16Of([]);
    }
  }

  /** What is pushed for one code point. */
  method PushCodePoint(buffer: seq<bv32>, codePoint: bv32) returns (r: seq<bv32>)
    requires Scalar(codePoint)
    ensures r == buffer + ToUtf16(codePoint)
  {
    var cp := codePoint;
    if cp <= 0xFFFF {
      r := buffer + [cp];
    } else {
      var hi, lo := SurrogatePair(cp);
      hide *;
      r := buffer + [hi];
      r := r + [lo];
    }
  }

  method SurrogatePair(codePoint: bv32) returns (hi: bv32, lo: bv32)
    requires 0x10000 <= codePoint <= 0x10FFFF
    ensures ToUtf16(codePoint) == [hi, lo]
  {
    SurrogateSums(codePoint);
    var cp := codePoint - 0x10000;
    hi := 0xD800 + (cp >> 10);
    lo := 0xDC00 + (cp & 0x3FF);
    assert hi == HighSurrogate(codePoint) && lo == LowSurrogate(codePoint);
  }

  /** The UTF-16 form of a string, if it is well-formed. */
  function Utf16Text(s: seq<Byte>): Result<seq<bv32>>
  {
    if AllValid(Walk(s, 0)) then ValidIsEncoded(s, 0); Success(Utf16Of(CodePoints(Walk(s, 0)))) else Failure
  }

  method PushAll(calls: seq<Call>, ghost cps: seq<bv32>) returns (buffer: seq<bv32>)
    requires Scalars(cps) && |cps| == |calls| && forall i :: 0 <= i < |calls| ==> cps[i] == calls[i].cp
    ensures buffer == Utf16Of(cps)
  {
    hide Utf16Of, ToUtf16, Scalar;
    buffer := [];
    Utf16Nothing();
    assert cps[..0] == [];
    for i := 0 to |calls|
      invariant buffer == Utf16Of(cps[..i])
    {
      Utf16Snoc(cps[..i], cps[i]);
      assert cps[..i + 1] == cps[..i] + [cps[i]];
      buffer := PushCodePoint(buffer, calls[i].cp);
    }
    assert cps[..|calls|] == cps;
  }

  /** The constructor fills its buffer, with a zero at the end, or throws at the first
      invalid sequence. */
  method Utf8ToUtf16(s: seq<Byte>) returns (r: Result<seq<bv32>>)
    ensures r == if Utf16Text(s).Success? then Success(Utf16Text(s).value + [0]) else Failure
  {
    hide Walk, Until, CodePoints, Utf16Of, ToUtf16, Scalar, Scalars;
    var calls := ForEachCodepoint(s, Continues);
    UntilInvalid([], Walk(s, 0));
    if !Continues(calls) {
      return Failure;
    }
    assert calls == Walk(s, 0);
    ValidIsEncoded(s, 0);
    CodePointsOfValid(calls);
    var buffer := PushAll(calls, CodePoints(calls));
    return Success(buffer + [0]);
  }

  lemma Utf16Nothing()
    ensures Utf16Of([]) == []
  {
  }

  // ---------- The encoder of time strings ----------

  lemma {:induction false} Utf8Snoc(cps: seq<bv32>, cp: bv32)
    requires Scalars(cps) && Scalar(cp)
    ensures Scalars(cps + [cp]) && Utf8Of(cps + [cp]) == Utf8Of(cps) + ToUtf8(cp)
  {
    hide ToUtf8, Scalar;
    if cps != [] {
      Utf8Snoc(cps[1..], cp);
      assert (cps + [cp])[1..] == cps[1..] + [cp];
    } else {
      assert (cps + [cp])[1..] == [];
      assert Utf8Of([cp]) == ToUtf8(cp) + Utf8Of([]);
    }
  }

  /** The branches over the size of a code point; surrogates and numbers beyond the last
      code point fall through them all. */
  method PushUtf8(buf: seq<Byte>, c: bv32) returns (r: Result<seq<Byte>>)
    ensures r == if Scalar(c) then Success(buf + ToUtf8(c)) else Failure
  {
    if c < 0x80 {
      r := Success(buf + [c as Byte]);
    } else if c < 0x800 {
      TwoUnits(c);
      r := Success(buf + [(0xc0 | (c >> 6)) as Byte, (0x80 | (c & 0x3f)) as Byte]);
    } else if (c >= 0x800 && c <= 0xd7ff) || (c >= 0xe000 && c <= 0xffff) {
      ThreeUnits(c);
      r := Success(buf + [(0xe0 | (c >> 12)) as Byte, (0x80 | ((c & 0xfff) >> 6)) as Byte, (0x80 | (c & 0x3f)) as Byte]);
    } else if c >= 0x10000 && c <= 0x10ffff {
      FourUnits(c);
      r := Success(buf + [(0xf0 | (c >> 18)) as Byte, (0x80 | ((c & 0x3ffff) >> 12)) as Byte,
                          (0x80 | ((c & 0xfff) >> 6)) as Byte, (0x80 | (c & 0x3f)) as Byte]);
    } else {
      r := Failure;
    }
  }

  lemma TwoUnits(c: bv32)
    requires 0x80 <= c < 0x800
    ensures 0xc0 | (c >> 6) <= 0xFF && 0x80 | (c & 0x3f) <= 0xFF
    ensures [(0xc0 | (c >> 6)) as Byte, (0x80 | (c & 0x3f)) as Byte] == ToUtf8(c)
  {
  }

  lemma ThreeUnits(c: bv32)
    requires 0x800 <= c <= 0xFFFF && Scalar(c)
    ensures 0xe0 | (c >> 12) <= 0xFF && 0x80 | ((c & 0xfff) >> 6) <= 0xFF && 0x80 | (c & 0x3f) <= 0xFF
    ensures [(0xe0 | (c >> 12)) as Byte, (0x80 | ((c & 0xfff) >> 6)) as Byte, (0x80 | (c & 0x3f)) as Byte] == ToUtf8(c)
  {
  }

  lemma FourUnits(c: bv32)
    requires 0x10000 <= c <= 0x10FFFF
    ensures 0xf0 | (c >> 18) <= 0xFF && 0x80 | ((c & 0x3ffff) >> 12) <= 0xFF
    ensures 0x80 | ((c & 0xfff) >> 6) <= 0xFF && 0x80 | (c & 0x3f) <= 0xFF
    ensures [(0xf0 | (c >> 18)) as Byte, (0x80 | ((c & 0x3ffff) >> 12)) as Byte,
             (0x80 | ((c & 0xfff) >> 6)) as Byte, (0x80 | (c & 0x3f)) as Byte] == ToUtf8(c)
  {
  }

  /** What the encoder writes for a sequence of units. */
  function Encoded(units: seq<bv32>, wide: bool): Result<seq<Byte>>
  {
    var cps := FromUnits(units, 0, wide);
    if cps.Success? then Success(Utf8Of(cps.value)) else Failure
  }

  function Joined(cps: seq<bv32>, rest: Result<seq<bv32>>): Result<seq<bv32>>
  {
    if rest.Success? then Success(cps + rest.value) else Failure
  }

  predicate Narrow(units: seq<bv32>)
  {
    forall i :: 0 <= i < |units| ==> units[i] <= 0xFFFF
  }

  lemma SurrogateTests(c: bv32)
    requires c <= 0xFFFF
    ensures c & 0xfc00 == 0xd800 <==> 0xD800 <= c <= 0xDBFF
    ensures c & 0xfc00 == 0xdc00 <==> 0xDC00 <= c <= 0xDFFF
  {
  }

  /** One code point read from the unit at i, or from the two surrogates there. */
  lemma UnitStep(units: seq<bv32>, i: nat, wide: bool, done: seq<bv32>)
    requires i < |units| && (wide || !(0xD800 <= units[i] <= 0xDFFF))
    ensures Joined(done, FromUnits(units, i, wide)) ==
            if Scalar(units[i]) then Joined(done + [units[i]], FromUnits(units, i + 1, wide)) else Failure
  {
    hide Combined, Scalar;
    JoinedStep(done, units[i], FromUnits(units, i + 1, wide));
  }

  lemma PairStep(units: seq<bv32>, i: nat, done: seq<bv32>)
    requires i + 1 < |units| && 0xD800 <= units[i] <= 0xDBFF && 0xDC00 <= units[i + 1] <= 0xDFFF
    ensures Joined(done, FromUnits(units, i, false)) ==
            Joined(done + [Combined(units[i], units[i + 1])], FromUnits(units, i + 2, false))
    ensures Scalar(Combined(units[i], units[i + 1]))
  {
    Recombines(units[i], units[i + 1]);
    hide Combined;
    JoinedStep(done, Combined(units[i], units[i + 1]), FromUnits(units, i + 2, false));
  }

  lemma JoinedStep(done: seq<bv32>, cp: bv32, rest: Result<seq<bv32>>)
    ensures Joined(done, Prepend(cp, rest)) == Joined(done + [cp], rest)
  {
    if rest.Success? {
      assert done + ([cp] + rest.value) == (done + [cp]) + rest.value;
    }
  }

  lemma UnitsFail(units: seq<bv32>, i: nat, done: seq<bv32>)
    requires i < |units| && 0xD800 <= units[i] <= 0xDFFF
    requires i + 1 == |units| || units[i] > 0xDBFF || !(0xDC00 <= units[i + 1] <= 0xDFFF)
    ensures Joined(done, FromUnits(units, i, false)) == Failure
  {
  }

  /** The loop over the code units in write_encoded_tm_str. */
  method EncodeUnits(units: seq<bv32>, wide: bool) returns (r: Result<seq<Byte>>)
    requires wide || Narrow(units)
    ensures r == Encoded(units, wide)
  {
    var buf: seq<Byte> := [];
    ghost var done: seq<bv32> := [];
    var p := 0;
    StartOfUnits(units, wide);
    hide FromUnits, Utf8Of, ToUtf8, Scalar, Combined;
    while p < |units|
      invariant 0 <= p <= |units| && Scalars(done) && buf == Utf8Of(done)
      invariant FromUnits(units, 0, wide) == Joined(done, FromUnits(units, p, wide))
      decreases |units| - p
    {
      var c := units[p];
      if !wide && c >= 0xd800 && c <= 0xdfff {
        SurrogateTests(c);
        p := p + 1;
        if p < |units| {
          SurrogateTests(units[p]);
        }
        if p == |units| || c & 0xfc00 != 0xd800 || units[p] & 0xfc00 != 0xdc00 {
          UnitsFail(units, p - 1, done);
          return Failure;
        }
        Recombines(c, units[p]);
        PairStep(units, p - 1, done);
        c := (c << 10) + units[p] - 0x35fdc00;
      } else {
        UnitStep(units, p, wide, done);
      }
      var pushed := PushUtf8(buf, c);
      if pushed.Failure? {
        return Failure;
      }
      Utf8Snoc(done, c);
      buf := pushed.value;
      done := done + [c];
      p := p + 1;
    }
    EndOfUnits(units, wide, done);
    return Success(buf);
  }

  lemma StartOfUnits(units: seq<bv32>, wide: bool)
    ensures FromUnits(units, 0, wide) == Joined([], FromUnits(units, 0, wide)) && Utf8Of([]) == []
  {
    hide ToUtf8, Combined, Scalar;
    var r := FromUnits(units, 0, wide);
    assert r.Success? ==> [] + r.value == r.value;
  }

  lemma EndOfUnits(units: seq<bv32>, wide: bool, done: seq<bv32>)
    ensures Joined(done, FromUnits(units, |units|, wide)) == Success(done)
  {
    hide Combined, Scalar;
    assert done + [] == done;
  }

  // ---------- Round trips ----------

  lemma {:induction false} UnitsOfEncoded(before: seq<bv32>, cps: seq<bv32>)
    requires Scalars(cps)
    ensures FromUnits(before + Utf16Of(cps), |before|, false) == Success(cps)
    decreases |cps|
  {
    hide *;
    NoUnits(before);
    if cps != [] {
      var cp, rest := cps[0], cps[1..];
      assert cps == [cp] + rest;
      ScalarsSplit(cp, rest);
      Utf16Cons(cp, rest);
      var u, units := ToUtf16(cp), before + Utf16Of(cps);
      UnitsOfEncoded(before + u, rest);
      assert units == (before + u) + Utf16Of(rest);
      assert units[|before|..|before| + |u|] == u;
      FirstOfUnits(units, |before|, u, cp);
      PrependSuccess(cp, rest);
    }
  }

  lemma NoUnits(before: seq<bv32>)
    ensures Utf16Of([]) == [] && before + [] == before && FromUnits(before, |before|, false) == Success([])
  {
  }

  lemma PrependSuccess(cp: bv32, rest: seq<bv32>)
    ensures Prepend(cp, Success(rest)) == Success([cp] + rest)
  {
  }

  lemma FirstUnits(cp: bv32, u: seq<bv32>)
    requires Scalar(cp) && u == ToUtf16(cp)
    ensures if cp < 0x10000 then u == [cp] && !(0xD800 <= cp <= 0xDFFF)
            else |u| == 2 && 0xD800 <= u[0] <= 0xDBFF && 0xDC00 <= u[1] <= 0xDFFF && Combined(u[0], u[1]) == cp
  {
    if cp >= 0x10000 {
      SurrogateRanges(cp);
      SurrogatesCombine(cp);
      hide HighSurrogate, LowSurrogate, Combined;
    }
  }

  lemma FirstOfUnits(units: seq<bv32>, i: nat, u: seq<bv32>, cp: bv32)
    requires i + |u| <= |units| && units[i..i + |u|] == u && Scalar(cp) && u == ToUtf16(cp)
    ensures FromUnits(units, i, false) == Prepend(cp, FromUnits(units, i + |u|, false))
  {
    FirstUnits(cp, u);
    assert units[i] == u[0] && (|u| == 2 ==> units[i + 1] == u[1]);
    hide Combined, ToUtf16;
  }

  lemma {:induction false} EncodedOfUnits(units: seq<bv32>, i: nat)
    requires i <= |units| && FromUnits(units, i, false).Success? && Narrow(units)
    ensures Utf16Of(FromUnits(units, i, false).value) == units[i..]
    decreases |units| - i
  {
    hide Combined, ToUtf16, Scalar;
    if i < |units| {
      var w1 := units[i];
      if 0xD800 <= w1 <= 0xDFFF {
        EncodedOfUnits(units, i + 2);
        PairBack(w1, units[i + 1]);
        Utf16Cons(Combined(w1, units[i + 1]), FromUnits(units, i + 2, false).value);
        assert units[i..] == [w1, units[i + 1]] + units[i + 2..];
      } else {
        EncodedOfUnits(units, i + 1);
        SingleBack(w1);
        Utf16Cons(w1, FromUnits(units, i + 1, false).value);
        assert units[i..] == [w1] + units[i + 1..];
      }
    }
  }

  lemma Utf16Cons(cp: bv32, rest: seq<bv32>)
    requires Scalars(rest) && Scalar(cp)
    ensures Scalars([cp] + rest) && Utf16Of([cp] + rest) == ToUtf16(cp) + Utf16Of(rest)
  {
    hide Scalar, ToUtf16;
    assert ([cp] + rest)[1..] == rest;
  }

  lemma PairBack(hi: bv32, lo: bv32)
    requires 0xD800 <= hi <= 0xDBFF && 0xDC00 <= lo <= 0xDFFF
    ensures Scalar(Combined(hi, lo)) && ToUtf16(Combined(hi, lo)) == [hi, lo]
  {
    Recombines(hi, lo);
    SurrogatesOf(hi, lo);
    hide Combined, HighSurrogate, LowSurrogate;
  }

  lemma SingleBack(w: bv32)
    requires Scalar(w) && w <= 0xFFFF
    ensures ToUtf16(w) == [w]
  {
  }

  /** A string is converted to UTF-16 text exactly if encoding this text gives the string
      back: the two conversions are inverse, and accept the same strings. */
  lemma ConversionsInverse(s: seq<Byte>, units: seq<bv32>)
    requires Narrow(units)
    ensures Utf16Text(s) == Success(units) <==> Encoded(units, false) == Success(s)
  {
    hide *;
    if Utf16Text(s) == Success(units) {
      EncodedAgain(s, units);
    }
    if Encoded(units, false) == Success(s) {
      ConvertedAgain(s, units);
    }
  }

  lemma EncodedAgain(s: seq<Byte>, units: seq<bv32>)
    requires Utf16Text(s) == Success(units)
    ensures Encoded(units, false) == Success(s)
  {
    hide Walk, CodePoints, FromUnits, Utf8Of, Utf16Of, Scalars, AllValid;
    ValidIsEncoded(s, 0);
    UnitsOfEncoded([], CodePoints(Walk(s, 0)));
    assert [] + units == units && s[0..] == s;
  }

  lemma ConvertedAgain(s: seq<Byte>, units: seq<bv32>)
    requires Encoded(units, false) == Success(s) && Narrow(units)
    ensures Utf16Text(s) == Success(units)
  {
    hide Walk, CodePoints, FromUnits, Utf8Of, Utf16Of, Scalars, AllValid;
    var cps := FromUnits(units, 0, false).value;
    EncodedIsValid([], cps);
    EncodedOfUnits(units, 0);
    assert [] + s == s && units[0..] == units;
  }
}
