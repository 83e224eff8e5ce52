/** What format strings are written from: text, and replacement fields with an argument id.
    Writing them out and parsing them calls the handler for each piece in turn. */
module FormatPieces {
  import opened MachineInts
  import opened Decimals
  import opened DecimalIO
  import opened FormatString

  const DIGITS: string := "0123456789"
  const CAPITALS: string := "ABCDEFGHIJKLMNOPQRSTUVWXYZ"
  const SMALL: string := "abcdefghijklmnopqrstuvwxyz"

  predicate StartsName(c: char)
  {
    c in CAPITALS || c in SMALL || c == '_'
  }

  predicate IsInName(c: char)
  {
    StartsName(c) || c in DIGITS
  }

  /** The three ways to say which argument is meant. */
  datatype Id = Auto | Index(n: nat) | Name(name: string)
  {
    ghost predicate Valid()
    {
      Name? ==> name != "" && StartsName(name[0]) && InName(name)
    }

    function Written(): string
    {
      match this
      case Auto => ""
      case Index(n) => DecimalText(n)
      case Name(name) => name
    }

    /** The handler's call: an index that no int holds is handed over as the largest one. */
    function Argument<H>(handler: Handler<H>, h: H): Reply<H, int>
    {
      match this
      case Auto => handler.onAutoId(h)
      case Index(n) => handler.onIndex(h, if n <= INT_MAX then n else INT_MAX)
      case Name(name) => handler.onName(h, name)
    }
  }

  ghost predicate InName(s: string)
  {
    forall k :: 0 <= k < |s| ==> IsInName(s[k])
  }

  // ---------- Reading an argument id ----------

  lemma Characters(c: char)
    ensures IsNameStart(c) <==> StartsName(c)
    ensures IsNameStart(c) || IsDigit(c) <==> IsInName(c)
  {
    CapitalLetters(c);
    SmallLetters(c);
    Numerals(c);
    hide CAPITALS, SMALL, DIGITS;
  }

  lemma CapitalLetters(c: char)
    ensures 'A' <= c <= 'Z' <==> c in CAPITALS
  {
  }

  lemma SmallLetters(c: char)
    ensures 'a' <= c <= 'z' <==> c in SMALL
  {
  }

  lemma Numerals(c: char)
    ensures '0' <= c <= '9' <==> c in DIGITS
  {
  }

  lemma {:induction false} DigitRun(s: string, i: nat, e: nat)
    requires i <= e < |s| && IsDecimal(s[i..e]) && !IsDigit(s[e])
    ensures RunEnd(s, i) == e
    decreases e - i
  {
    if i < e {
      assert s[i] == s[i..e][0] && s[i + 1..e] == s[i..e][1..];
      DigitRun(s, i + 1, e);
    }
  }

  lemma {:induction false} NameRun(s: string, i: nat, e: nat)
    requires i <= e < |s| && InName(s[i..e]) && !IsNameStart(s[e]) && !IsDigit(s[e])
    ensures NameEnd(s, i) == e
    decreases e - i
  {
    if i < e {
      assert s[i] == s[i..e][0] && s[i + 1..e] == s[i..e][1..];
      Characters(s[i]);
      NameRun(s, i + 1, e);
    }
  }

  /** The id at b that ends at e, where the field ends or its specifiers begin. */
  ghost predicate ReadsAs(s: string, b: nat, e: nat, id: Id)
  {
    b <= e < |s| && (s[e] == '}' || s[e] == ':') && id.Valid() && s[b..e] == id.Written()
  }

  lemma IdRead<H>(handler: Handler<H>, s: string, b: nat, e: nat, id: Id, h: H)
    requires ReadsAs(s, b, e, id)
    ensures ArgId(handler, s, b, h) == Located(e, id.Argument(handler, h)) && s[b] != '{'
  {
    assert b < e ==> s[b] == s[b..e][0];
    match id
    case Auto =>
    case Index(n) => IndexRead(handler, s, b, e, n, h);
    case Name(name) => NameRead(handler, s, b, e, name, h);
  }

  lemma IndexRead<H>(handler: Handler<H>, s: string, b: nat, e: nat, n: nat, h: H)
    requires ReadsAs(s, b, e, Index(n))
    ensures ArgId(handler, s, b, h) == Located(e, Index(n).Argument(handler, h)) && s[b] != '{'
  {
    DecimalTextReads(n);
    assert s[b] == s[b..e][0] && IsDecimal(s[b..e]);
    DigitRun(s, b, e);
    IndexValue(n);
    if n == 0 {
      assert DecimalText(0) == "0";
    }
  }

  lemma IndexValue(n: nat)
    ensures Parsed(DecimalText(n), INT_MAX) == if n <= INT_MAX then n else INT_MAX
  {
    DecimalTextReads(n);
    if n <= INT_MAX {
      ParseInvertsFormat(n, INT_MAX);
    }
  }

  lemma NameRead<H>(handler: Handler<H>, s: string, b: nat, e: nat, name: string, h: H)
    requires ReadsAs(s, b, e, Name(name))
    ensures ArgId(handler, s, b, h) == Located(e, handler.onName(h, name)) && s[b] != '{'
  {
    assert s[b] == s[b..e][0];
    Characters(s[b]);
    assert s[b + 1..e] == s[b..e][1..];
    NameRun(s, b + 1, e);
  }

  // ---------- Reading a field ----------

  /** What a field whose id has been read ends in. */
  function Closed<H(!new)>(handler: Handler<H>, s: string, next: nat, id: Reply<H, int>): Outcome<H>
    requires next <= |s| && Forward(handler)
  {
    match id
    case Raise(message, h1) => Failed(message, h1)
    case Answer(h1, value) =>
      match handler.onField(h1, value)
      case Raise(message, h2) => Failed(message, h2)
      case Answer(h2, _) => Meaning(handler, s, next, h2)
  }

  function Specified<H(!new)>(handler: Handler<H>, s: string, specs: nat, id: Reply<H, int>): Outcome<H>
    requires specs <= |s| && Forward(handler)
  {
    match id
    case Raise(message, h1) => Failed(message, h1)
    case Answer(h1, value) =>
      match handler.onSpecs(h1, value, s, specs)
      case Raise(message, h2) => Failed(message, h2)
      case Answer(h2, end) =>
        if end < |s| && s[end] == '}' then Meaning(handler, s, end + 1, h2)
        else Failed("unknown format specifier", h2)
  }

  function Unclosed<H(!new)>(id: Reply<H, int>): Outcome<H>
  {
    match id
    case Raise(message, h1) => Failed(message, h1)
    case Answer(h1, _) => Failed("missing '}' in format string", h1)
  }

  /** A field without specifiers: its id, then the field. */
  lemma FieldMeans<H(!new)>(handler: Handler<H>, s: string, i: nat, e: nat, id: Id, h: H)
    requires Forward(handler) && i < |s| && s[i] == '{' && ReadsAs(s, i + 1, e, id) && s[e] == '}'
    ensures Meaning(handler, s, i, h) == Closed(handler, s, e + 1, id.Argument(handler, h))
  {
    hide ArgId, ReadsAs, Id.Argument, Forward;
    IdRead(handler, s, i + 1, e, id, h);
    EndOfId(s, i + 1, e, id);
    OneField(handler, s, i, h);
  }

  /** A field with specifiers: its id, then the place behind the colon, and the closing brace
      where the specifiers end. */
  lemma SpecsMean<H(!new)>(handler: Handler<H>, s: string, i: nat, e: nat, id: Id, h: H)
    requires Forward(handler) && i < |s| && s[i] == '{' && ReadsAs(s, i + 1, e, id) && s[e] == ':'
    ensures Meaning(handler, s, i, h) == Specified(handler, s, e + 1, id.Argument(handler, h))
  {
    hide ArgId, ReadsAs, Id.Argument, Forward;
    IdRead(handler, s, i + 1, e, id, h);
    EndOfId(s, i + 1, e, id);
    OneField(handler, s, i, h);
  }

  lemma EndOfId(s: string, b: nat, e: nat, id: Id)
    requires ReadsAs(s, b, e, id)
    ensures b <= e < |s| && (s[e] == '}' || s[e] == ':')
  {
  }

  /** The reading of one field, its id apart. */
  lemma OneField<H(!new)>(handler: Handler<H>, s: string, i: nat, h: H)
    requires Forward(handler) && i + 1 < |s| && s[i] == '{' && s[i + 1] != '{'
    ensures Meaning(handler, s, i, h) ==
            match ArgId(handler, s, i + 1, h)
            case Raise(message, h1) => Failed(message, h1)
            case Answer(h1, (e, value)) =>
              if e < |s| && s[e] == '}' then Closed(handler, s, e + 1, Answer(h1, value))
              else if e < |s| && s[e] == ':' then Specified(handler, s, e + 1, Answer(h1, value))
              else Failed("missing '}' in format string", h1)
  {
    hide ArgId;
  }

  /** The longest name at b. */
  ghost predicate NameAt(s: string, b: nat, e: nat)
  {
    && b < e <= |s| && Name(s[b..e]).Valid()
    && (e < |s| ==> !IsInName(s[e]))
  }

  /** Nothing else is read: a brace that is not doubled and has no id behind it is an error,
      after a name that is handed over first. */
  lemma UnreadFails<H(!new)>(handler: Handler<H>, s: string, i: nat, b: nat, h: H)
    requires Forward(handler) && i < |s| && s[i] == '{' && b == i + 1 && (b < |s| ==> s[b] != '{') && Unread(s, b)
    ensures if b < |s| && StartsName(s[b]) then
              exists e: nat :: NameAt(s, b, e) && Meaning(handler, s, i, h) == Unclosed(handler.onName(h, s[b..e]))
            else
              Meaning(handler, s, i, h) == Failed("invalid format string", h)
  {
    hide CAPITALS, SMALL, StartsName, IsInName, Unread, NameAt, Forward;
    if b < |s| {
      Characters(s[b]);
      AutoUnread(s, b);
      OneField(handler, s, i, h);
      if IsDigit(s[b]) {
        NumberUnread(s, b);
      } else if IsNameStart(s[b]) {
        NameUnread(s, b);
        assert NameAt(s, b, NameEnd(s, b + 1));
      }
    }
  }

  ghost predicate Unread(s: string, b: nat)
  {
    forall id, e: nat :: !ReadsAs(s, b, e, id)
  }

  lemma AutoUnread(s: string, b: nat)
    requires b < |s| && Unread(s, b)
    ensures s[b] != '}' && s[b] != ':'
  {
    AutoReads(s, b);
  }

  lemma AutoReads(s: string, b: nat)
    requires b < |s|
    ensures s[b] == '}' || s[b] == ':' ==> ReadsAs(s, b, b, Auto)
  {
    assert s[b..b] == Auto.Written();
  }

  lemma NumberUnread(s: string, b: nat)
    requires b < |s| && IsDigit(s[b]) && Unread(s, b)
    ensures !EndsId(s, if s[b] == '0' then b + 1 else RunEnd(s, b))
  {
    var e := if s[b] == '0' then b + 1 else RunEnd(s, b);
    if EndsId(s, e) {
      var run := s[b..e];
      assert run[0] == s[b];
      DecimalTextUnique(run);
      assert ReadsAs(s, b, e, Index(Read(run)));
    }
  }

  lemma NameUnread(s: string, b: nat)
    requires b < |s| && IsNameStart(s[b]) && Unread(s, b)
    ensures var e := NameEnd(s, b + 1); NameAt(s, b, e) && !EndsId(s, e)
  {
    hide CAPITALS, SMALL, DIGITS, StartsName, IsInName, IsNameStart;
    var e := NameEnd(s, b + 1);
    NameEndIs(s, b + 1);
    Characters(s[b]);
    assert s[b..e] == [s[b]] + s[b + 1..e];
    assert InName([s[b]]);
    NameReads(s, b, e);
  }

  lemma NameReads(s: string, b: nat, e: nat)
    requires NameAt(s, b, e)
    ensures EndsId(s, e) ==> ReadsAs(s, b, e, Name(s[b..e]))
  {
    hide Id.Valid;
  }

  lemma {:induction false} NameEndIs(s: string, i: nat)
    requires i <= |s|
    ensures var e := NameEnd(s, i); InName(s[i..e]) && (e < |s| ==> !IsInName(s[e]))
    decreases |s| - i
  {
    hide CAPITALS, SMALL, DIGITS, StartsName, IsInName, IsNameStart;
    if i < |s| {
      Characters(s[i]);
      var e := NameEnd(s, i);
      if i < e {
        NameEndIs(s, i + 1);
        assert s[i..e] == [s[i]] + s[i + 1..e];
      }
    }
  }

  // ---------- Whole format strings ----------

  /** A piece of a format string. */
  datatype Piece = Text(text: string) | Field(id: Id)

  ghost predicate Valid(pieces: seq<Piece>)
  {
    forall k :: 0 <= k < |pieces| && pieces[k].Field? ==> pieces[k].id.Valid()
  }

  /** The pieces written out: braces of text doubled, ids in braces. */
  function Written(pieces: seq<Piece>): string
  {
    if pieces == [] then "" else
      (match pieces[0]
       case Text(text) => Doubled(text)
       case Field(id) => "{" + id.Written() + "}") + Written(pieces[1..])
  }

  /** The handler's calls, piece by piece. */
  function Run<H(!new)>(handler: Handler<H>, pieces: seq<Piece>, h: H): Outcome<H>
  {
    if pieces == [] then Finished(h) else
      match pieces[0]
      case Text(text) => Run(handler, pieces[1..], handler.onText(h, text))
      case Field(id) =>
        match id.Argument(handler, h)
        case Raise(message, h1) => Failed(message, h1)
        case Answer(h1, value) =>
          match handler.onField(h1, value)
          case Raise(message, h2) => Failed(message, h2)
          case Answer(h2, _) => Run(handler, pieces[1..], h2)
  }

  /** Doubled text is passed over. */
  lemma {:induction false} TextMeans<H(!new)>(handler: Handler<H>, before: string, t: string, after: string, h: H)
    requires Forward(handler) && Appends(handler)
    ensures Meaning(handler, before + Doubled(t) + after, |before|, h) ==
            Meaning(handler, before + Doubled(t) + after, |before + Doubled(t)|, handler.onText(h, t))
    decreases |t|
  {
    hide Meaning, Forward;
    if t != "" {
      var first := if t[0] == '{' || t[0] == '}' then [t[0], t[0]] else [t[0]];
      var s := before + Doubled(t) + after;
      assert s == (before + first) + Doubled(t[1..]) + after;
      TextMeans(handler, before + first, t[1..], after, handler.onText(h, [t[0]]));
      assert [t[0]] + t[1..] == t;
      assert s[|before|] == t[0];
      if |first| == 2 {
        assert s[|before| + 1] == t[0];
      }
      OneCharacter(handler, s, |before|, |before| + |first|, h);
    }
  }

  lemma OneCharacter<H(!new)>(handler: Handler<H>, s: string, i: nat, e: nat, h: H)
    requires i < e <= |s| && Forward(handler)
    requires if s[i] == '{' || s[i] == '}' then e == i + 2 && s[i + 1] == s[i] else e == i + 1
    ensures Meaning(handler, s, i, h) == Meaning(handler, s, e, handler.onText(h, [s[i]]))
  {
  }

  lemma {:induction false} PiecesMean<H(!new)>(handler: Handler<H>, before: string, pieces: seq<Piece>, h: H)
    requires Forward(handler) && Appends(handler) && Valid(pieces)
    ensures Meaning(handler, before + Written(pieces), |before|, h) == Run(handler, pieces, h)
    decreases |pieces|, 1
  {
    if pieces == [] {
      assert before + Written(pieces) == before;
    } else {
      assert pieces == [pieces[0]] + pieces[1..];
      hide Id.Valid, Forward, Appends, Run, Meaning, Written;
      match pieces[0]
      case Text(text) => PiecesAfterText(handler, before, text, pieces[1..], h);
      case Field(id) => PiecesAfterField(handler, before, id, pieces[1..], h);
    }
  }

  lemma {:induction false} PiecesAfterText<H(!new)>(handler: Handler<H>, before: string, text: string,
                                                    rest: seq<Piece>, h: H)
    requires Forward(handler) && Appends(handler) && Valid(rest)
    ensures Meaning(handler, before + Written([Text(text)] + rest), |before|, h) == Run(handler, [Text(text)] + rest, h)
    decreases |rest| + 1, 0
  {
    hide Id.Valid, Forward, Appends, Doubled, Run, Meaning, Written;
    RunText(handler, text, rest, h);
    Joined(before, Doubled(text), Written(rest));
    TextMeans(handler, before, text, Written(rest), h);
    PiecesMean(handler, before + Doubled(text), rest, handler.onText(h, text));
  }

  lemma {:induction false} PiecesAfterField<H(!new)>(handler: Handler<H>, before: string, id: Id,
                                                     rest: seq<Piece>, h: H)
    requires Forward(handler) && Appends(handler) && Valid(rest) && id.Valid()
    ensures Meaning(handler, before + Written([Field(id)] + rest), |before|, h) == Run(handler, [Field(id)] + rest, h)
    decreases |rest| + 1, 0
  {
    hide Id.Written, Id.Valid, Id.Argument, Forward, Appends, Run, Meaning, Written;
    var passed := before + ("{" + id.Written() + "}");
    WrittenField(id, rest);
    FieldWritten(handler, before, id, rest, h);
    Joined(before, "{" + id.Written() + "}", Written(rest));
    RunField(handler, id, rest, h);
    var field := id.Argument(handler, h);
    if field.Answer? {
      var done := handler.onField(field.state, field.value);
      PiecesMean(handler, passed, rest, done.state);
    }
  }

  lemma Joined(a: string, b: string, c: string)
    ensures a + (b + c) == a + b + c
  {
  }

  lemma {:induction false} RunText<H(!new)>(handler: Handler<H>, text: string, rest: seq<Piece>, h: H)
    ensures Run(handler, [Text(text)] + rest, h) == Run(handler, rest, handler.onText(h, text))
    ensures Written([Text(text)] + rest) == Doubled(text) + Written(rest)
  {
    assert ([Text(text)] + rest)[1..] == rest;
  }

  lemma {:induction false} RunField<H(!new)>(handler: Handler<H>, id: Id, rest: seq<Piece>, h: H)
    ensures Run(handler, [Field(id)] + rest, h) ==
            match id.Argument(handler, h)
            case Raise(message, h1) => Failed(message, h1)
            case Answer(h1, value) =>
              match handler.onField(h1, value)
              case Raise(message, h2) => Failed(message, h2)
              case Answer(h2, _) => Run(handler, rest, h2)
  {
    assert ([Field(id)] + rest)[1..] == rest;
  }

  lemma FieldWritten<H(!new)>(handler: Handler<H>, before: string, id: Id, rest: seq<Piece>, h: H)
    requires Forward(handler) && id.Valid()
    ensures var s, next := before + Written([Field(id)] + rest), |before| + |id.Written()| + 2;
            next <= |s| && Meaning(handler, s, |before|, h) == Closed(handler, s, next, id.Argument(handler, h))
  {
    hide Id.Written, Id.Valid, Id.Argument, Forward, Meaning, Closed;
    var w := id.Written();
    var s := before + Written([Field(id)] + rest);
    WrittenField(id, rest);
    assert s == before + "{" + w + "}" + Written(rest);
    var e := |before| + 1 + |w|;
    assert s[|before|] == '{' && s[e] == '}' && s[|before| + 1..e] == w;
    FieldMeans(handler, s, |before|, e, id, h);
  }

  lemma WrittenField(id: Id, rest: seq<Piece>)
    ensures Written([Field(id)] + rest) == "{" + id.Written() + "}" + Written(rest)
  {
    assert ([Field(id)] + rest)[1..] == rest;
  }

  /** Parsing what has been written calls the handler for each piece, in order and with its
      own text, index or name. */
  lemma PiecesRoundTrip<H(!new)>(handler: Handler<H>, pieces: seq<Piece>, h: H)
    requires Forward(handler) && Appends(handler) && Valid(pieces)
    ensures SameResult(Parse(handler, Written(pieces), 0, 0, h), Run(handler, pieces, h))
  {
    PiecesMean(handler, "", pieces, h);
    assert "" + Written(pieces) == Written(pieces);
    ParseMeans(handler, Written(pieces), 0, 0, h);
    assert Written(pieces)[0..0] == "";
  }
}
