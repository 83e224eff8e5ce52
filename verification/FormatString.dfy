/** parse_format_string: a simple loop for short strings, two searches for long ones. */
module FormatString {
  import opened MachineInts
  import opened Decimals
  import opened DecimalIO

  // ---------- The handler ----------

  /** A callback either answers or raises an error; both leave the handler in some state. */
  datatype Reply<H, T> = Answer(state: H, value: T) | Raise(message: string, state: H)

  /** The callbacks of a format handler, which changes state with every call. */
  datatype Handler<!H> = Handler(
    onText: (H, string) -> H,
    onAutoId: H -> Reply<H, int>,
    onIndex: (H, int) -> Reply<H, int>,
    onName: (H, string) -> Reply<H, int>,
    onField: (H, int) -> Reply<H, ()>,
    onSpecs: (H, int, string, nat) -> Reply<H, nat>)

  /** Specifiers are read forward and inside the string. */
  ghost predicate Forward<H(!new)>(handler: Handler<H>)
  {
    forall h, id, s, i: nat :: i <= |s| && handler.onSpecs(h, id, s, i).Answer? ==>
                            i <= handler.onSpecs(h, id, s, i).value <= |s|
  }

  /** Text is appended: nothing for an empty piece, and no matter how it is cut up. */
  ghost predicate Appends<H(!new)>(handler: Handler<H>)
  {
    && (forall h :: handler.onText(h, "") == h)
    && (forall h, a, b :: handler.onText(handler.onText(h, a), b) == handler.onText(h, a + b))
  }

  // ---------- Replacement fields ----------

  predicate IsNameStart(c: char)
  {
    'a' <= c <= 'z' || 'A' <= c <= 'Z' || c == '_'
  }

  /** The end of a name whose first character has been read. */
  function NameEnd(s: string, i: nat): (e: nat)
    requires i <= |s|
    ensures i <= e <= |s|
    decreases |s| - i
  {
    if i < |s| && (IsNameStart(s[i]) || IsDigit(s[i])) then NameEnd(s, i + 1) else i
  }

  predicate EndsId(s: string, i: nat)
  {
    i < |s| && (s[i] == '}' || s[i] == ':')
  }

  function Located<H>(pos: nat, reply: Reply<H, int>): Reply<H, (nat, int)>
  {
    match reply
    case Answer(h, id) => Answer(h, (pos, id))
    case Raise(message, h) => Raise(message, h)
  }

  /** The argument id at i and where it ends. */
  function ArgId<H>(handler: Handler<H>, s: string, i: nat, h: H): (r: Reply<H, (nat, int)>)
    requires i < |s|
    ensures r.Answer? ==> i <= r.value.0 <= |s|
  {
    var c := s[i];
    if c == '}' || c == ':' then Located(i, handler.onAutoId(h))
    else if IsDigit(c) then
      var end := if c == '0' then i + 1 else RunEnd(s, i);
      var index := if c == '0' then 0 else Parsed(s[i..end], INT_MAX);
      if EndsId(s, end) then Located(end, handler.onIndex(h, index)) else Raise("invalid format string", h)
    else if IsNameStart(c) then
      var end := NameEnd(s, i + 1);
      Located(end, handler.onName(h, s[i..end]))
    else Raise("invalid format string", h)
  }

  /** The replacement field, or escaped brace, whose '{' is at i; answers where it ends. */
  function Field<H(!new)>(handler: Handler<H>, s: string, i: nat, h: H): (r: Reply<H, nat>)
    requires i < |s| && Forward(handler)
    ensures r.Answer? ==> i < r.value <= |s|
  {
    var b := i + 1;
    if b == |s| then Raise("invalid format string", h)
    else if s[b] == '{' then Answer(handler.onText(h, "{"), b + 1)
    else
      match ArgId(handler, s, b, h)
      case Raise(message, h1) => Raise(message, h1)
      case Answer(h1, (e, id)) =>
        if e < |s| && s[e] == '}' then
          match handler.onField(h1, id)
          case Raise(message, h2) => Raise(message, h2)
          case Answer(h2, _) => Answer(h2, e + 1)
        else if e < |s| && s[e] == ':' then
          match handler.onSpecs(h1, id, s, e + 1)
          case Raise(message, h2) => Raise(message, h2)
          case Answer(h2, e2) =>
            if e2 < |s| && s[e2] == '}' then Answer(h2, e2 + 1) else Raise("unknown format specifier", h2)
        else Raise("missing '}' in format string", h1)
  }

  // ---------- The format string ----------

  datatype Outcome<H> = Finished(state: H) | Failed(message: string, state: H)

  /** Parsing from i on while the text from begin on has not been passed on yet. */
  function Parse<H(!new)>(handler: Handler<H>, s: string, begin: nat, i: nat, h: H): Outcome<H>
    requires begin <= i <= |s| && Forward(handler)
    decreases |s| - i
  {
    if i == |s| then Finished(handler.onText(h, s[begin..]))
    else if s[i] == '{' then Continue(handler, s, i, Field(handler, s, i, handler.onText(h, s[begin..i])))
    else if s[i] == '}' then
      if i + 1 < |s| && s[i + 1] == '}' then
        Parse(handler, s, i + 2, i + 2, handler.onText(h, s[begin..i + 1]))
      else
        Failed("unmatched '}' in format string", h)
    else Parse(handler, s, begin, i + 1, h)
  }

  function Continue<H(!new)>(handler: Handler<H>, s: string, i: nat, field: Reply<H, nat>): Outcome<H>
    requires i < |s| && Forward(handler) && (field.Answer? ==> i < field.value <= |s|)
    decreases |s| - i, 0
  {
    match field
    case Raise(message, h) => Failed(message, h)
    case Answer(h, next) => Parse(handler, s, next, next, h)
  }

  method ParseArgId<H>(handler: Handler<H>, s: string, i: nat, h: H) returns (r: Reply<H, (nat, int)>)
    requires i < |s|
    ensures r == ArgId(handler, s, i, h)
  {
    var c := s[i];
    if c == '}' || c == ':' {
      return Located(i, handler.onAutoId(h));
    }
    if '0' <= c <= '9' {
      var index, begin := 0, i;
      if c != '0' {
        index, begin := ParseNonnegativeInt(s, i, INT_MAX);
      } else {
        begin := begin + 1;
      }
      if begin == |s| || (s[begin] != '}' && s[begin] != ':') {
        return Raise("invalid format string", h);
      }
      return Located(begin, handler.onIndex(h, index));
    }
    if !IsNameStart(c) {
      return Raise("invalid format string", h);
    }
    var it := i + 1;
    while it != |s| && (IsNameStart(s[it]) || '0' <= s[it] <= '9')
      invariant i < it <= |s| && NameEnd(s, i + 1) == NameEnd(s, it)
      decreases |s| - it
    {
      it := it + 1;
    }
    return Located(it, handler.onName(h, s[i..it]));
  }

  method ParseReplacementField<H(!new)>(handler: Handler<H>, s: string, i: nat, state: H) returns (r: Reply<H, nat>)
    requires i < |s| && Forward(handler)
    ensures r == Field(handler, s, i, state)
  {
    var begin, h := i + 1, state;
    if begin == |s| {
      return Raise("invalid format string", h);
    }
    if s[begin] == '}' {
      var id := handler.onAutoId(h);
      if id.Raise? {
        return Raise(id.message, id.state);
      }
      var done := handler.onField(id.state, id.value);
      return if done.Raise? then Raise(done.message, done.state) else Answer(done.state, begin + 1);
    }
    if s[begin] == '{' {
      assert s[begin..begin + 1] == "{";
      return Answer(handler.onText(h, s[begin..begin + 1]), begin + 1);
    }
    var id := ParseArgId(handler, s, begin, h);
    if id.Raise? {
      return Raise(id.message, id.state);
    }
    h, begin := id.state, id.value.0;
    var c := if begin != |s| then s[begin] else '\0';
    if c == '}' {
      var done := handler.onField(h, id.value.1);
      return if done.Raise? then Raise(done.message, done.state) else Answer(done.state, begin + 1);
    }
    if c == ':' {
      var specs := handler.onSpecs(h, id.value.1, s, begin + 1);
      if specs.Raise? {
        return Raise(specs.message, specs.state);
      }
      h, begin := specs.state, specs.value;
      if begin == |s| || s[begin] != '}' {
        return Raise("unknown format specifier", h);
      }
      return Answer(h, begin + 1);
    }
    return Raise("missing '}' in format string", h);
  }

  /** The simple loop. */
  method ParseShort<H(!new)>(handler: Handler<H>, s: string, state: H) returns (r: Outcome<H>)
    requires Forward(handler)
    ensures r == Parse(handler, s, 0, 0, state)
  {
    var begin, p, h := 0, 0, state;
    while p != |s|
      invariant 0 <= begin <= p <= |s| && Parse(handler, s, 0, 0, state) == Parse(handler, s, begin, p, h)
      decreases |s| - p
    {
      var c := s[p];
      p := p + 1;
      if c == '{' {
        h := handler.onText(h, s[begin..p - 1]);
        var field := ParseReplacementField(handler, s, p - 1, h);
        if field.Raise? {
          return Failed(field.message, field.state);
        }
        h := field.state;
        begin, p := field.value, field.value;
      } else if c == '}' {
        if p == |s| || s[p] != '}' {
          return Failed("unmatched '}' in format string", h);
        }
        h := handler.onText(h, s[begin..p]);
        p := p + 1;
        begin := p;
      }
    }
    return Finished(handler.onText(h, s[begin..]));
  }

  /** find: the first occurrence of a character. */
  method Find(s: string, first: nat, last: nat, c: char) returns (found: bool, out: nat)
    requires first <= last <= |s|
    ensures first <= out <= last && (found <==> out < last) && (found ==> s[out] == c)
    ensures forall i :: first <= i < out ==> s[i] != c
  {
    out := first;
    while out != last
      invariant first <= out <= last && forall i :: first <= i < out ==> s[i] != c
    {
      if s[out] == c {
        return true, out;
      }
      out := out + 1;
    }
    found := false;
  }

  /** What remains after the text up to the next '{', or the end, has been written. */
  function AfterText<H(!new)>(handler: Handler<H>, s: string, to: nat, written: Outcome<H>): Outcome<H>
    requires to <= |s| && Forward(handler)
  {
    if written.Failed? || to == |s| then written
    else Continue(handler, s, to, Field(handler, s, to, written.state))
  }

  predicate NoBrace(s: string, i: nat, j: nat, c: char)
  {
    forall k :: i <= k < j && k < |s| ==> s[k] != c
  }

  lemma {:induction false} SkipPlain<H(!new)>(handler: Handler<H>, s: string, begin: nat, i: nat, j: nat, h: H)
    requires begin <= i <= j <= |s| && Forward(handler) && NoBrace(s, i, j, '{') && NoBrace(s, i, j, '}')
    ensures Parse(handler, s, begin, i, h) == Parse(handler, s, begin, j, h)
    decreases j - i
  {
    if i < j {
      SkipPlain(handler, s, begin, i + 1, j, h);
    }
  }

  /** The writer of the long path: text without '{', in which every '}' must be doubled. */
  method WriteText<H(!new)>(handler: Handler<H>, s: string, begin: nat, to: nat, state: H) returns (r: Outcome<H>)
    requires begin <= to <= |s| && Forward(handler) && Appends(handler)
    requires NoBrace(s, begin, to, '{') && (to < |s| ==> s[to] == '{')
    ensures Parse(handler, s, begin, begin, state) == AfterText(handler, s, to, r)
  {
    var from, h := begin, state;
    if from == to {
      assert s[from..to] == "" && (to == |s| ==> s[from..] == "");
      return Finished(h);
    }
    while true
      invariant begin <= from <= to && Parse(handler, s, begin, begin, state) == Parse(handler, s, from, from, h)
      decreases |s| - from
    {
      var found, p := Find(s, from, to, '}');
      SkipPlain(handler, s, from, from, p, h);
      if !found {
        assert to == |s| ==> s[from..] == s[from..to];
        return Finished(handler.onText(h, s[from..to]));
      }
      p := p + 1;
      if p == to || s[p] != '}' {
        return Failed("unmatched '}' in format string", h);
      }
      h := handler.onText(h, s[from..p]);
      from := p + 1;
    }
  }

  /** The two searches. */
  method ParseLong<H(!new)>(handler: Handler<H>, s: string, state: H) returns (r: Outcome<H>)
    requires Forward(handler) && Appends(handler)
    ensures r == Parse(handler, s, 0, 0, state)
  {
    var begin, h := 0, state;
    while begin != |s|
      invariant 0 <= begin <= |s| && Parse(handler, s, 0, 0, state) == Parse(handler, s, begin, begin, h)
      decreases |s| - begin
    {
      var p := begin;
      if s[begin] != '{' {
        var found;
        found, p := Find(s, begin + 1, |s|, '{');
        if !found {
          r := WriteText(handler, s, begin, |s|, h);
          return;
        }
      }
      var written := WriteText(handler, s, begin, p, h);
      if written.Failed? {
        return written;
      }
      var field := ParseReplacementField(handler, s, p, written.state);
      if field.Raise? {
        return Failed(field.message, field.state);
      }
      h, begin := field.state, field.value;
    }
    assert s[|s|..] == "";
    return Finished(h);
  }

  /** parse_format_string: both paths come to the same end, with the same calls of the
      handler up to empty texts. */
  method ParseFormatString<H(!new)>(handler: Handler<H>, s: string, state: H) returns (r: Outcome<H>)
    requires Forward(handler) && Appends(handler)
    ensures r == Parse(handler, s, 0, 0, state)
  {
    if |s| < 32 {
      r := ParseShort(handler, s, state);
    } else {
      r := ParseLong(handler, s, state);
    }
  }

  // ---------- What a format string means ----------

  /** Character by character: text is copied, doubled braces stand for single ones, and a
      replacement field is its handler's business. */
  function Meaning<H(!new)>(handler: Handler<H>, s: string, i: nat, h: H): Outcome<H>
    requires i <= |s| && Forward(handler)
    decreases |s| - i
  {
    if i == |s| then Finished(h)
    else if s[i] == '{' then
      match Field(handler, s, i, h)
      case Raise(message, h1) => Failed(message, h1)
      case Answer(h1, next) => Meaning(handler, s, next, h1)
    else if s[i] == '}' then
      if i + 1 < |s| && s[i + 1] == '}' then Meaning(handler, s, i + 2, handler.onText(h, "}"))
      else Failed("unmatched '}' in format string", h)
    else Meaning(handler, s, i + 1, handler.onText(h, [s[i]]))
  }

  /** The same end state, or the same error. */
  predicate SameResult<H(==)>(a: Outcome<H>, b: Outcome<H>)
  {
    if a.Finished? then a == b else b.Failed? && a.message == b.message
  }

  lemma {:induction false} ParseMeans<H(!new)>(handler: Handler<H>, s: string, begin: nat, i: nat, h: H)
    requires begin <= i <= |s| && Forward(handler) && Appends(handler)
    ensures SameResult(Parse(handler, s, begin, i, h), Meaning(handler, s, i, handler.onText(h, s[begin..i])))
    decreases |s| - i
  {
    hide Forward, Field, Appends;
    TextSplit(handler, s, begin, i, h);
    var h1 := handler.onText(h, s[begin..i]);
    if i == |s| {
      assert s[begin..] == s[begin..i];
    } else if s[i] == '{' {
      var field := Field(handler, s, i, h1);
      if field.Answer? {
        ParseMeans(handler, s, field.value, field.value, field.state);
        TextSplit(handler, s, field.value, field.value, field.state);
      }
    } else if s[i] == '}' {
      if i + 1 < |s| && s[i + 1] == '}' {
        var h2 := handler.onText(h, s[begin..i + 1]);
        ParseMeans(handler, s, i + 2, i + 2, h2);
        TextSplit(handler, s, i + 2, i + 2, h2);
      }
    } else {
      ParseMeans(handler, s, begin, i + 1, h);
    }
  }

  lemma TextSplit<H(!new)>(handler: Handler<H>, s: string, begin: nat, i: nat, h: H)
    requires begin <= i <= |s| && Appends(handler)
    ensures i < |s| ==>
              handler.onText(h, s[begin..i + 1]) == handler.onText(handler.onText(h, s[begin..i]), [s[i]])
    ensures begin == i ==> handler.onText(h, s[begin..i]) == h
  {
    if i < |s| {
      assert s[begin..i + 1] == s[begin..i] + [s[i]];
    }
    if begin == i {
      assert s[begin..i] == "";
    }
  }

  /** The text with its braces doubled. */
  function Doubled(t: string): string
  {
    if t == "" then "" else (if t[0] == '{' || t[0] == '}' then [t[0], t[0]] else [t[0]]) + Doubled(t[1..])
  }

  lemma {:induction false} DoubledMeans<H(!new)>(handler: Handler<H>, before: string, t: string, h: H)
    requires Forward(handler) && Appends(handler)
    ensures Meaning(handler, before + Doubled(t), |before|, h) == Finished(handler.onText(h, t))
    decreases |t|
  {
    var s := before + Doubled(t);
    if t == "" {
      assert s == before;
    } else {
      var first := if t[0] == '{' || t[0] == '}' then [t[0], t[0]] else [t[0]];
      assert s == (before + first) + Doubled(t[1..]);
      DoubledMeans(handler, before + first, t[1..], handler.onText(h, [t[0]]));
      assert [t[0]] + t[1..] == t;
      assert s[|before|] == t[0];
      if |first| == 2 {
        assert s[|before| + 1] == t[0];
      }
    }
  }

  /** Formatting any text with its braces doubled gives the text back. */
  lemma DoubledRoundTrip<H(!new)>(handler: Handler<H>, t: string, h: H)
    requires Forward(handler) && Appends(handler)
    ensures Parse(handler, Doubled(t), 0, 0, h) == Finished(handler.onText(h, t))
  {
    DoubledMeans(handler, "", t, h);
    assert "" + Doubled(t) == Doubled(t);
    ParseMeans(handler, Doubled(t), 0, 0, h);
    assert Doubled(t)[0..0] == "";
  }
}
