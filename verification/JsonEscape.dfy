/** Escaping text for JSON by editing the string in place. */
module JsonEscape {

  /** The two forms: the client also escapes quotes, the server does not. */
  datatype Form = Client | Server
  {
    /** Whether a backslash is put in front of the character. */
    predicate Escapes(c: char)
    {
      c == '\\' || (Client? && c == '"')
    }

    function EscapedChar(c: char): string
    {
      if c == '\n' then "\\n" else if Escapes(c) then ['\\', c] else [c]
    }

    /** Every character by itself. */
    function Escaped(s: string): string
    {
      if s == "" then "" else EscapedChar(s[0]) + Escaped(s[1..])
    }

    /** escapeJsonString: erases and inserts while the index moves through the string. */
    method EscapeJsonString(text: string) returns (input: string)
      ensures input == Escaped(text)
    {
      input := text;
      var i := 0;
      ghost var done, rest := "", text;
      hide Escaped, EscapedChar;
      while true
        invariant i == |done| && input == done + rest && done + Escaped(rest) == Escaped(text)
        decreases |rest|
      {
        if i >= |input| {
          break;
        }
        EscapedStep(done, rest);
        EditStep(done, rest);
        if input[i] == '\n' {
          input := Erase(input, i);
          input := Insert(input, i, "\\n");
          i := i + 1;
        } else if Escapes(input[i]) {
          input := Insert(input, i, "\\");
          i := i + 1;
        }
        i := i + 1;
        done, rest := done + EscapedChar(rest[0]), rest[1..];
      }
      EscapedEnd(done);
    }

    lemma EscapedEnd(done: string)
      ensures done + Escaped("") == done
    {
    }

    lemma EscapedStep(done: string, rest: string)
      requires rest != ""
      ensures done + Escaped(rest) == (done + EscapedChar(rest[0])) + Escaped(rest[1..])
    {
      hide EscapedChar;
      assert Escaped(rest) == EscapedChar(rest[0]) + Escaped(rest[1..]);
    }

    /** The edit for the character at the index, in terms of the parts before and behind it. */
    lemma EditStep(done: string, rest: string)
      requires rest != ""
      ensures var input, i := done + rest, |done|;
              (done + EscapedChar(rest[0])) + rest[1..] ==
              if rest[0] == '\n' then Insert(Erase(input, i), i, "\\n")
              else if Escapes(rest[0]) then Insert(input, i, "\\")
              else input
      ensures |EscapedChar(rest[0])| == (if rest[0] == '\n' || Escapes(rest[0]) then 2 else 1)
    {
      var input, i, tail := done + rest, |done|, rest[1..];
      if rest[0] == '\n' {
        assert Erase(input, i) == done + tail;
        InsertBetween(done, tail, "\\n");
      } else if Escapes(rest[0]) {
        InsertBetween(done, rest, "\\");
        assert "\\" + rest == EscapedChar(rest[0]) + tail;
        hide Insert, EscapedChar;
        assert (done + "\\") + rest == done + ("\\" + rest);
      } else {
        assert rest == EscapedChar(rest[0]) + tail;
      }
    }

    lemma InsertBetween(done: string, rest: string, t: string)
      ensures Insert(done + rest, |done|, t) == (done + t) + rest
    {
      assert (done + rest)[..|done|] == done && (done + rest)[|done|..] == rest;
    }

    // ---------- Reading it back ----------

    lemma {:induction false} DecodesBack(s: string)
      ensures Decoded(Escaped(s)) == s
    {
      if s != "" {
        DecodesBack(s[1..]);
        var e, rest := EscapedChar(s[0]), Escaped(s[1..]);
        assert e + rest == Escaped(s);
        if |e| == 2 {
          assert (e + rest)[2..] == rest;
        } else {
          assert (e + rest)[1..] == rest;
        }
      }
    }

    /** What needs no escape stays as it is, tabs and other control characters too. */
    lemma {:induction false} PlainUnchanged(s: string)
      ensures Escaped(s) == s <==> '\n' !in s && '\\' !in s && (Client? ==> '"' !in s)
    {
      if s != "" {
        PlainUnchanged(s[1..]);
        assert s == [s[0]] + s[1..];
        EscapedLength(s[1..]);
        if Escaped(s) == s {
          assert |EscapedChar(s[0])| == 1;
          assert Escaped(s)[1..] == Escaped(s[1..]);
        }
      }
    }

    lemma {:induction false} EscapedLength(s: string)
      ensures |Escaped(s)| >= |s|
    {
      if s != "" {
        EscapedLength(s[1..]);
      }
    }

    /** Different texts are escaped differently. */
    lemma EscapedInjective(s: string, t: string)
      requires Escaped(s) == Escaped(t)
      ensures s == t
    {
      DecodesBack(s);
      DecodesBack(t);
    }

    /** No control character but newline, and for the server no quote either. */
    predicate Presentable(c: char)
    {
      c == '\n' || (c >= ' ' && (c == '"' ==> Client?))
    }

    /** The result is the body of a JSON string exactly for presentable texts. */
    lemma {:induction false} EscapedIsBody(s: string)
      ensures IsBody(Escaped(s)) <==> forall i :: 0 <= i < |s| ==> Presentable(s[i])
    {
      if s != "" {
        EscapedIsBody(s[1..]);
        var e, rest := EscapedChar(s[0]), Escaped(s[1..]);
        assert forall i :: 0 < i < |s| ==> s[i] == s[1..][i - 1];
        if |e| == 2 {
          assert (e + rest)[2..] == rest;
        } else {
          assert (e + rest)[1..] == rest;
        }
        assert IsBody(e + rest) <==> Presentable(s[0]) && IsBody(rest);
        assert (forall i :: 0 <= i < |s| ==> Presentable(s[i])) <==>
               Presentable(s[0]) && forall i :: 0 <= i < |s[1..]| ==> Presentable(s[1..][i]);
      }
    }
  }

  /** std::string's erase of one character and its insert. */
  function Erase(s: string, i: nat): string
    requires i < |s|
  {
    s[..i] + s[i + 1..]
  }

  function Insert(s: string, i: nat, t: string): string
    requires i <= |s|
  {
    s[..i] + t + s[i..]
  }

  function Unescaped(c: char): char
  {
    match c
    case 'n' => '\n'
    case 'b' => 8 as char
    case 'f' => 12 as char
    case 'r' => '\r'
    case 't' => '\t'
    case _ => c
  }

  /** Takes two-character escapes apart again. */
  function Decoded(s: string): string
    decreases |s|
  {
    if s == "" then ""
    else if s[0] == '\\' && |s| >= 2 then [Unescaped(s[1])] + Decoded(s[2..])
    else [s[0]] + Decoded(s[1..])
  }

  predicate IsHex(c: char)
  {
    '0' <= c <= '9' || 'a' <= c <= 'f' || 'A' <= c <= 'F'
  }

  /** The characters between the quotes of a string in section 7 of RFC 8259. */
  predicate IsBody(s: string)
    decreases |s|
  {
    if s == "" then true
    else if s[0] == '\\' then
      || (|s| >= 2 && s[1] in {'"', '\\', '/', 'b', 'f', 'n', 'r', 't'} && IsBody(s[2..]))
      || (|s| >= 6 && s[1] == 'u' && IsHex(s[2]) && IsHex(s[3]) && IsHex(s[4]) && IsHex(s[5]) && IsBody(s[6..]))
    else s[0] >= ' ' && s[0] != '"' && IsBody(s[1..])
  }
}
