/** The lexical grammar of the SQL front end, and what splitting a text into tokens means. */
module Tokens {

  predicate IsSpace(c: char) {
    c == ' ' || c == '\t' || c == '\n' || c == '\r' || c == '\U{0B}' || c == '\U{0C}'
  }

  predicate IsQuote(c: char) {
    c == '\'' || c == '\"'
  }

  predicate IsSpecial(c: char) {
    c == ',' || c == ';' || c == '(' || c == ')' || c == '=' || c == '<' || c == '>' || c == '!'
  }

  /** Characters that may start a two-character operator. */
  predicate TakesEquals(c: char) {
    c == '<' || c == '>' || c == '!'
  }

  predicate IsPlain(c: char) {
    !IsSpace(c) && !IsQuote(c) && !IsSpecial(c)
  }

  predicate AllPlain(t: string) {
    forall i :: 0 <= i < |t| ==> IsPlain(t[i])
  }

  predicate IsWord(t: string) {
    t != "" && AllPlain(t)
  }

  predicate IsOperator(t: string) {
    || (|t| == 1 && IsSpecial(t[0]))
    || (|t| == 2 && TakesEquals(t[0]) && t[1] == '=')
  }

  /** Between the quotes every quote of the same kind is doubled. */
  predicate Doubled(q: char, body: string) {
    if body == "" then true
    else if body[0] != q then Doubled(q, body[1..])
    else |body| >= 2 && body[1] == q && Doubled(q, body[2..])
  }

  predicate IsQuoted(t: string) {
    |t| >= 2 && IsQuote(t[0]) && t[|t| - 1] == t[0] && Doubled(t[0], t[1..|t| - 1])
  }

  /** A quotation the text ended before closing. */
  predicate IsUnterminated(t: string) {
    |t| >= 1 && IsQuote(t[0]) && Doubled(t[0], t[1..])
  }

  predicate IsToken(t: string) {
    IsWord(t) || IsOperator(t) || IsQuoted(t)
  }

  /** Complete tokens, except that the last one may be an unterminated quotation. */
  predicate WellFormed(ts: seq<string>) {
    && (forall i :: 0 <= i < |ts| - 1 ==> IsToken(ts[i]))
    && (ts != [] ==> IsToken(ts[|ts| - 1]) || IsUnterminated(ts[|ts| - 1]))
  }

  lemma NoneEmpty(ts: seq<string>)
    requires WellFormed(ts)
    ensures "" !in ts
  {
    forall i | 0 <= i < |ts| ensures |ts[i]| > 0 {
      assert IsToken(ts[i]) || IsUnterminated(ts[i]);
    }
  }

  function Join(ts: seq<string>): string {
    if ts == [] then "" else if |ts| == 1 then ts[0] else ts[0] + " " + Join(ts[1..])
  }

  datatype Mode = Outside | Inside(quote: char)

  function Flush(current: string): seq<string> {
    if current == "" then [] else [current]
  }

  /** The tokens of a text, given the token begun so far and whether it is a quotation. */
  function Lex(s: string, current: string, mode: Mode): seq<string>
    decreases |s|
  {
    if s == "" then Flush(current)
    else
      var c := s[0];
      match mode
      case Inside(q) =>
        if c != q then Lex(s[1..], current + [c], mode)
        else if |s| >= 2 && s[1] == q then Lex(s[2..], current + [c, c], mode)
        else [current + [c]] + Lex(s[1..], "", Outside)
      case Outside =>
        if IsQuote(c) then Flush(current) + Lex(s[1..], [c], Inside(c))
        else if IsSpace(c) then Flush(current) + Lex(s[1..], "", Outside)
        else if IsSpecial(c) then
          if TakesEquals(c) && |s| >= 2 && s[1] == '=' then Flush(current) + [[c, '=']] + Lex(s[2..], "", Outside)
          else Flush(current) + [[c]] + Lex(s[1..], "", Outside)
        else Lex(s[1..], current + [c], Outside)
  }

  // ---- every output is well formed ----

  lemma {:induction false} DoubledAppend(q: char, body: string, tail: string)
    requires Doubled(q, body) && Doubled(q, tail)
    ensures Doubled(q, body + tail)
    decreases |body|
  {
    if body == "" {
      assert body + tail == tail;
    } else if body[0] != q {
      assert (body + tail)[1..] == body[1..] + tail;
      DoubledAppend(q, body[1..], tail);
    } else {
      assert (body + tail)[2..] == body[2..] + tail;
      DoubledAppend(q, body[2..], tail);
    }
  }

  lemma Prepend(t: string, ts: seq<string>)
    requires IsToken(t) && WellFormed(ts)
    ensures WellFormed([t] + ts)
  {
  }

  lemma PrependFlush(current: string, ts: seq<string>)
    requires AllPlain(current) && WellFormed(ts)
    ensures WellFormed(Flush(current) + ts)
  {
    if current == "" {
      assert Flush(current) + ts == ts;
    } else {
      Prepend(current, ts);
    }
  }

  /** What may have been collected when a character is read. */
  predicate Begun(current: string, mode: Mode) {
    match mode
    case Outside => AllPlain(current)
    case Inside(q) => current != "" && current[0] == q && IsQuote(q) && Doubled(q, current[1..])
  }

  /** How many characters the operator at the start of a text takes. */
  function OperatorLength(s: string): nat {
    if |s| >= 2 && TakesEquals(s[0]) && s[1] == '=' then 2 else 1
  }

  lemma LexSpecial(s: string, current: string)
    requires s != "" && IsSpecial(s[0])
    ensures var n := OperatorLength(s);
            IsToken(s[..n]) && Lex(s, current, Outside) == Flush(current) + ([s[..n]] + Lex(s[n..], "", Outside))
  {
    var n := OperatorLength(s);
    var op := if n == 2 then [s[0], '='] else [s[0]];
    assert s[..n] == op;
    assert Flush(current) + [op] + Lex(s[n..], "", Outside) == Flush(current) + ([op] + Lex(s[n..], "", Outside));
  }

  lemma {:induction false} LexWellFormed(s: string, current: string, mode: Mode)
    requires Begun(current, mode)
    ensures WellFormed(Lex(s, current, mode))
    decreases |s|
  {
    if s != "" {
      var c := s[0];
      match mode
      case Inside(q) =>
        if c != q {
          Extend(q, current, [c]);
          LexWellFormed(s[1..], current + [c], mode);
        } else if |s| >= 2 && s[1] == q {
          Extend(q, current, [c, c]);
          LexWellFormed(s[2..], current + [c, c], mode);
        } else {
          var closed := current + [c];
          assert closed[1..|closed| - 1] == current[1..];
          LexWellFormed(s[1..], "", Outside);
          Prepend(closed, Lex(s[1..], "", Outside));
        }
      case Outside =>
        if IsQuote(c) {
          assert [c][1..] == "";
          LexWellFormed(s[1..], [c], Inside(c));
          PrependFlush(current, Lex(s[1..], [c], Inside(c)));
        } else if IsSpace(c) {
          LexWellFormed(s[1..], "", Outside);
          PrependFlush(current, Lex(s[1..], "", Outside));
        } else if IsSpecial(c) {
          var n := OperatorLength(s);
          LexSpecial(s, current);
          LexWellFormed(s[n..], "", Outside);
          Prepend(s[..n], Lex(s[n..], "", Outside));
          PrependFlush(current, [s[..n]] + Lex(s[n..], "", Outside));
        } else {
          LexWellFormed(s[1..], current + [c], Outside);
        }
    }
  }

  lemma Extend(q: char, current: string, tail: string)
    requires current != "" && current[0] == q && Doubled(q, current[1..]) && Doubled(q, tail)
    ensures (current + tail)[0] == q && Doubled(q, (current + tail)[1..])
  {
    DoubledAppend(q, current[1..], tail);
    assert (current + tail)[1..] == current[1..] + tail;
  }

  // ---- printing and reading back ----

  lemma {:induction false} LexWord(w: string, rest: string, current: string)
    requires AllPlain(w)
    ensures Lex(w + rest, current, Outside) == Lex(rest, current + w, Outside)
    decreases |w|
  {
    if w == "" {
      assert w + rest == rest && current + w == current;
    } else {
      assert (w + rest)[1..] == w[1..] + rest;
      LexWord(w[1..], rest, current + [w[0]]);
      assert current + [w[0]] + w[1..] == current + w;
    }
  }

  lemma {:induction false} LexDoubled(q: char, body: string, rest: string, current: string)
    requires Doubled(q, body)
    ensures Lex(body + rest, current, Inside(q)) == Lex(rest, current + body, Inside(q))
    decreases |body|
  {
    if body == "" {
      assert body + rest == rest && current + body == current;
    } else if body[0] != q {
      assert (body + rest)[1..] == body[1..] + rest;
      LexDoubled(q, body[1..], rest, current + [body[0]]);
      assert current + [body[0]] + body[1..] == current + body;
    } else {
      assert (body + rest)[2..] == body[2..] + rest;
      LexDoubled(q, body[2..], rest, current + [q, q]);
      assert current + [q, q] + body[2..] == current + body;
    }
  }

  lemma LexQuotation(t: string, rest: string)
    requires IsUnterminated(t)
    ensures Lex(t + rest, "", Outside) == Lex(rest, t, Inside(t[0]))
  {
    assert (t + rest)[1..] == t[1..] + rest;
    LexDoubled(t[0], t[1..], rest, [t[0]]);
    assert [t[0]] + t[1..] == t;
    assert Flush("") + Lex(t[1..] + rest, [t[0]], Inside(t[0])) == Lex(t[1..] + rest, [t[0]], Inside(t[0]));
  }

  lemma LexQuoted(t: string, rest: string)
    requires IsQuoted(t) && (rest == "" || rest[0] != t[0])
    ensures Lex(t + rest, "", Outside) == [t] + Lex(rest, "", Outside)
  {
    var open := t[..|t| - 1];
    assert open[1..] == t[1..|t| - 1];
    var tail := [t[0]] + rest;
    assert t + rest == open + tail && open + [t[0]] == t;
    LexQuotation(open, tail);
    assert tail[1..] == rest;
  }

  /** A complete token followed by the end of the text, or by a space, is read as one token. */
  lemma LexToken(t: string, rest: string)
    requires IsToken(t)
    ensures Lex(t, "", Outside) == [t]
    ensures Lex(t + " " + rest, "", Outside) == [t] + Lex(rest, "", Outside)
  {
    var tail := " " + rest;
    assert t + " " + rest == t + tail && t + "" == t && tail[1..] == rest;
    if IsWord(t) {
      LexWord(t, "", "");
      LexWord(t, tail, "");
      assert "" + t == t;
    } else if IsQuoted(t) {
      LexQuoted(t, "");
      LexQuoted(t, tail);
      assert Lex(tail, "", Outside) == Flush("") + Lex(rest, "", Outside);
    } else {
      LexOperator(t, "");
      LexOperator(t, tail);
      assert Lex(tail, "", Outside) == Flush("") + Lex(rest, "", Outside);
    }
  }

  lemma LexOperator(t: string, tail: string)
    requires IsOperator(t) && (tail == "" || tail[0] != '=')
    ensures Lex(t + tail, "", Outside) == [t] + Lex(tail, "", Outside)
  {
    assert (t + tail)[|t|..] == tail;
    if |t| == 1 {
      assert t == [t[0]];
      assert Flush("") + [[t[0]]] + Lex(tail, "", Outside) == [t] + Lex(tail, "", Outside);
    } else {
      assert t == [t[0], '='];
      assert Flush("") + [[t[0], '=']] + Lex(tail, "", Outside) == [t] + Lex(tail, "", Outside);
    }
  }

  /** A comma ends a complete token as well. */
  lemma LexBeforeComma(t: string, rest: string)
    requires IsToken(t)
    ensures Lex(t + "," + rest, "", Outside) == [t, ","] + Lex(rest, "", Outside)
  {
    var tail := "," + rest;
    assert t + "," + rest == t + tail && tail[1..] == rest;
    LexSpecial(tail, "");
    assert tail[..1] == "," && Flush("") + ([","] + Lex(rest, "", Outside)) == [","] + Lex(rest, "", Outside);
    TwoBefore(t, ",", Lex(rest, "", Outside));
    if IsWord(t) {
      LexWord(t, tail, "");
      LexSpecial(tail, t);
      assert "" + t == t;
    } else if IsQuoted(t) {
      LexQuoted(t, tail);
    } else {
      LexOperator(t, tail);
    }
  }

  /** Printing tokens with single spaces and reading them back changes nothing. */
  lemma {:induction false} RoundTrip(ts: seq<string>)
    requires WellFormed(ts)
    ensures Lex(Join(ts), "", Outside) == ts
    decreases |ts|
  {
    if |ts| == 1 {
      if IsToken(ts[0]) {
        LexToken(ts[0], "");
      } else {
        LexQuotation(ts[0], "");
        assert ts[0] + "" == ts[0];
      }
    } else if |ts| > 1 {
      LexToken(ts[0], Join(ts[1..]));
      RoundTrip(ts[1..]);
    }
  }

  /** A list of strings survives printing and reading back exactly when it is a well-formed token list. */
  lemma RoundTripExact(ts: seq<string>)
    ensures Lex(Join(ts), "", Outside) == ts <==> WellFormed(ts)
  {
    if WellFormed(ts) {
      RoundTrip(ts);
    } else {
      LexWellFormed(Join(ts), "", Outside);
    }
  }

  /** Tokenizing, joining and tokenizing again gives the first tokens, for every text. */
  lemma LexJoinLex(s: string)
    ensures var ts := Lex(s, "", Outside); Lex(Join(ts), "", Outside) == ts
  {
    LexWellFormed(s, "", Outside);
    RoundTrip(Lex(s, "", Outside));
  }

  // ---- nothing is lost ----

  function Concat(ts: seq<string>): string {
    if ts == [] then "" else ts[0] + Concat(ts[1..])
  }

  /** The text without its unquoted white space; each quote of the kind that opened a quotation ends it. */
  function Squeezed(s: string, mode: Mode): string {
    if s == "" then ""
    else
      var c := s[0];
      match mode
      case Inside(q) => [c] + Squeezed(s[1..], if c == q then Outside else mode)
      case Outside =>
        (if IsSpace(c) then "" else [c]) + Squeezed(s[1..], if IsQuote(c) then Inside(c) else Outside)
  }

  lemma {:induction false} ConcatAppend(ts: seq<string>, us: seq<string>)
    ensures Concat(ts + us) == Concat(ts) + Concat(us)
  {
    if ts == [] {
      assert ts + us == us;
    } else {
      assert (ts + us)[1..] == ts[1..] + us;
      ConcatAppend(ts[1..], us);
    }
  }

  lemma ConcatFlush(current: string, ts: seq<string>)
    ensures Concat(Flush(current) + ts) == current + Concat(ts)
  {
    ConcatAppend(Flush(current), ts);
    assert Concat(Flush(current)) == current by {
      if current != "" {
        assert Concat([current][1..]) == "";
      }
    }
  }

  /** The tokens, put end to end, are the text without its unquoted white space: no character is lost or added. */
  lemma {:induction false} Conservation(s: string, current: string, mode: Mode)
    requires mode.Inside? ==> IsQuote(mode.quote)
    ensures Concat(Lex(s, current, mode)) == current + Squeezed(s, mode)
    decreases |s|
  {
    if s == "" {
      ConcatFlush(current, []);
      assert Flush(current) + [] == Flush(current);
    } else {
      var c := s[0];
      match mode
      case Inside(q) =>
        if c != q {
          Conservation(s[1..], current + [c], mode);
        } else if |s| >= 2 && s[1] == q {
          Conservation(s[2..], current + [c, c], mode);
          assert s[1..][1..] == s[2..];
          assert Squeezed(s, mode) == [c] + ([c] + Squeezed(s[2..], mode));
        } else {
          Conservation(s[1..], "", Outside);
          assert ([current + [c]] + Lex(s[1..], "", Outside))[1..] == Lex(s[1..], "", Outside);
        }
      case Outside =>
        if IsQuote(c) {
          Conservation(s[1..], [c], Inside(c));
          ConcatFlush(current, Lex(s[1..], [c], Inside(c)));
        } else if IsSpace(c) {
          Conservation(s[1..], "", Outside);
          ConcatFlush(current, Lex(s[1..], "", Outside));
        } else if IsSpecial(c) {
          ConservationOperator(s, current);
        } else {
          Conservation(s[1..], current + [c], Outside);
        }
    }
  }

  lemma {:induction false} ConservationOperator(s: string, current: string)
    requires s != "" && IsSpecial(s[0])
    ensures Concat(Lex(s, current, Outside)) == current + Squeezed(s, Outside)
    decreases |s|, 0
  {
    hide Squeezed, Lex, IsToken, IsSpecial;
    var n := OperatorLength(s);
    var op, rest := s[..n], Lex(s[n..], "", Outside);
    LexSpecial(s, current);
    Conservation(s[n..], "", Outside);
    ConcatFlush(current, [op] + rest);
    assert ([op] + rest)[1..] == rest;
    SqueezedSpecial(s, n);
  }

  lemma SqueezedSpecial(s: string, n: nat)
    requires n == 1 || (n == 2 && |s| >= 2 && s[1] == '=')
    requires s != "" && IsSpecial(s[0])
    ensures Squeezed(s, Outside) == s[..n] + Squeezed(s[n..], Outside)
  {
    hide Squeezed;
    SqueezedOnce(s);
    if n == 1 {
      assert s[..1] == [s[0]];
    } else {
      SqueezedOnce(s[1..]);
      assert s[1..][1..] == s[2..] && s[..2] == [s[0], s[1]];
      TwoBefore(s[0], s[1], Squeezed(s[2..], Outside));
    }
  }

  lemma SqueezedOnce(s: string)
    requires s != "" && IsSpecial(s[0])
    ensures Squeezed(s, Outside) == [s[0]] + Squeezed(s[1..], Outside)
  {
  }

  lemma TwoBefore<T>(a: T, b: T, rest: seq<T>)
    ensures [a] + ([b] + rest) == [a, b] + rest
  {
  }

  // ---- texts in which tokens touch ----

  /** A piece of a text: white space, an operator, a word, a quotation, or one that the text ends before closing. */
  datatype Lexeme =
    | Space(c: char)
    | Sign(c: char, withEquals: bool)
    | Word(text: string)
    | Quotation(quote: char, content: string)
    | Open(quote: char, content: string)
  {
    function Spelling(): string {
      match this
      case Space(c) => [c]
      case Sign(c, withEquals) => if withEquals then [c, '='] else [c]
      case Word(text) => text
      case Quotation(q, content) => [q] + Twice(q, content) + [q]
      case Open(q, content) => [q] + Twice(q, content)
    }

    predicate Proper() {
      match this
      case Space(c) => c in " \t\n\r\U{0B}\U{0C}"
      case Sign(c, withEquals) => if withEquals then c in "<>!" else c in ",;()=<>!"
      case Word(text) => text != "" && forall c :: c in text ==> c !in " \t\n\r\U{0B}\U{0C}" && c !in ",;()=<>!" && c !in "\'\""
      case Quotation(q, content) => q in "\'\""
      case Open(q, content) => q in "\'\""
    }

    /** The next piece does not melt into this one. */
    predicate Before(next: Lexeme) {
      match this
      case Space(_) => true
      case Sign(c, withEquals) => !withEquals && c in "<>!" && next.Sign? ==> next.c != '='
      case Word(_) => !next.Word?
      case Quotation(q, _) => next.Quotation? || next.Open? ==> next.quote != q
      case Open(_, _) => false
    }
  }

  /** The content of a quotation with every quote of its kind doubled. */
  function Twice(q: char, content: string): string {
    if content == "" then "" else (if content[0] == q then [q, q] else [content[0]]) + Twice(q, content[1..])
  }

  predicate ProperText(pieces: seq<Lexeme>) {
    && (forall i :: 0 <= i < |pieces| ==> pieces[i].Proper())
    && (forall i :: 0 <= i < |pieces| - 1 ==> pieces[i].Before(pieces[i + 1]))
  }

  function TextOf(pieces: seq<Lexeme>): string {
    if pieces == [] then "" else pieces[0].Spelling() + TextOf(pieces[1..])
  }

  /** What the pieces other than white space spell. */
  function Spellings(pieces: seq<Lexeme>): seq<string> {
    if pieces == [] then []
    else (if pieces[0].Space? then [] else [pieces[0].Spelling()]) + Spellings(pieces[1..])
  }

  lemma {:induction false} TwiceDoubled(q: char, content: string)
    ensures Doubled(q, Twice(q, content))
    decreases |content|
  {
    if content != "" {
      TwiceDoubled(q, content[1..]);
      if content[0] == q {
        assert Twice(q, content)[2..] == Twice(q, content[1..]);
      } else {
        assert Twice(q, content)[1..] == Twice(q, content[1..]);
      }
    }
  }

  /** How a piece starts. */
  lemma Starts(piece: Lexeme)
    requires piece.Proper()
    ensures piece.Spelling() != ""
    ensures var c := piece.Spelling()[0];
            match piece
            case Space(_) => IsSpace(c)
            case Sign(d, _) => IsSpecial(c) && c == d
            case Word(text) => IsPlain(c) && AllPlain(text)
            case Quotation(q, _) => IsQuote(c) && c == q
            case Open(q, _) => IsQuote(c) && c == q
  {
    if piece.Word? {
      assert forall i :: 0 <= i < |piece.text| ==> piece.text[i] in piece.text;
    }
  }

  lemma LexEnclosed(piece: Lexeme, rest: string)
    requires piece.Proper() && piece.Quotation? && (rest == "" || rest[0] != piece.quote)
    ensures Lex(piece.Spelling() + rest, "", Outside) == [piece.Spelling()] + Lex(rest, "", Outside)
  {
    var t := piece.Spelling();
    TwiceDoubled(piece.quote, piece.content);
    assert t[1..|t| - 1] == Twice(piece.quote, piece.content);
    LexQuoted(t, rest);
  }

  lemma LexOpen(piece: Lexeme)
    requires piece.Proper() && piece.Open?
    ensures Lex(piece.Spelling(), "", Outside) == [piece.Spelling()]
  {
    var t := piece.Spelling();
    TwiceDoubled(piece.quote, piece.content);
    assert t[1..] == Twice(piece.quote, piece.content) && t + "" == t;
    LexQuotation(t, "");
  }

  lemma LexPlain(w: string, rest: string)
    requires w != "" && AllPlain(w) && (rest == "" || !IsPlain(rest[0]))
    ensures Lex(w + rest, "", Outside) == [w] + Lex(rest, "", Outside)
  {
    LexWord(w, rest, "");
    assert "" + w == w;
    if rest != "" && IsSpecial(rest[0]) {
      LexSpecial(rest, w);
      LexSpecial(rest, "");
      var tail := [rest[..OperatorLength(rest)]] + Lex(rest[OperatorLength(rest)..], "", Outside);
      assert Flush("") + tail == tail;
    }
  }

  /** One piece of a text in front of the rest. */
  lemma LexPiece(piece: Lexeme, rest: string)
    requires piece.Proper() && !piece.Open?
    requires rest != "" ==>
               match piece
               case Space(_) => true
               case Sign(c, withEquals) => !withEquals && c in "<>!" ==> rest[0] != '='
               case Word(_) => !IsPlain(rest[0])
               case Quotation(q, _) => rest[0] != q
               case Open(_, _) => true
    ensures Lex(piece.Spelling() + rest, "", Outside) ==
            (if piece.Space? then [] else [piece.Spelling()]) + Lex(rest, "", Outside)
  {
    Starts(piece);
    match piece
    case Space(c) => assert ([c] + rest)[1..] == rest;
    case Sign(c, withEquals) => LexSign(c, withEquals, rest);
    case Word(text) => LexPlain(text, rest);
    case Quotation(_, _) => LexEnclosed(piece, rest);
    case Open(_, _) =>
  }

  lemma LexSign(c: char, withEquals: bool, rest: string)
    requires if withEquals then c in "<>!" else c in ",;()=<>!"
    requires rest != "" && !withEquals && c in "<>!" ==> rest[0] != '='
    ensures var t := if withEquals then [c, '='] else [c];
            Lex(t + rest, "", Outside) == [t] + Lex(rest, "", Outside)
  {
    var t := if withEquals then [c, '='] else [c];
    LexSpecial(t + rest, "");
    assert OperatorLength(t + rest) == |t| && (t + rest)[..|t|] == t && (t + rest)[|t|..] == rest;
    assert Flush("") + ([t] + Lex(rest, "", Outside)) == [t] + Lex(rest, "", Outside);
  }

  /** However its pieces touch, a text is read as what its pieces spell, white space left out. */
  lemma {:induction false} LexText(pieces: seq<Lexeme>)
    requires ProperText(pieces)
    ensures Lex(TextOf(pieces), "", Outside) == Spellings(pieces)
    decreases |pieces|
  {
    if pieces != [] {
      var piece, more := pieces[0], pieces[1..];
      assert ProperText(more) by {
        forall i | 0 <= i < |more| - 1 ensures more[i].Before(more[i + 1]) {
          assert pieces[i + 1].Before(pieces[i + 2]);
        }
      }
      if more == [] {
        assert piece.Spelling() + "" == piece.Spelling();
      } else {
        assert piece.Before(pieces[1]);
        Starts(more[0]);
      }
      LexText(more);
      if piece.Open? {
        LexOpen(piece);
      } else {
        LexPiece(piece, TextOf(more));
      }
    }
  }

  /** The first position from `k` on that does not hold a plain character. */
  function PlainEnd(s: string, k: nat): (r: nat)
    requires k <= |s|
    ensures k <= r <= |s| && (r < |s| ==> !IsPlain(s[r]))
    ensures forall i :: k <= i < r ==> IsPlain(s[i])
    decreases |s| - k
  {
    if k == |s| || !IsPlain(s[k]) then k else PlainEnd(s, k + 1)
  }

  lemma TwiceStep(q: char, c: char, content: string)
    ensures Twice(q, [c] + content) == (if c == q then [q, q] else [c]) + Twice(q, content)
  {
    assert ([c] + content)[1..] == content;
  }

  /** What follows an opening quote: the content, and whether and where the quotation is closed. */
  lemma {:induction false} QuotedPrefix(q: char, s: string) returns (content: string, closed: bool, rest: string)
    ensures s == Twice(q, content) + if closed then [q] + rest else ""
    ensures if closed then |rest| < |s| && (rest == "" || rest[0] != q) else rest == ""
    decreases |s|
  {
    content, closed, rest := "", false, "";
    if s != "" {
      if s[0] != q {
        content, closed, rest := QuotedPrefix(q, s[1..]);
        TwiceStep(q, s[0], content);
        assert s == [s[0]] + s[1..];
        content := [s[0]] + content;
      } else if |s| >= 2 && s[1] == q {
        content, closed, rest := QuotedPrefix(q, s[2..]);
        TwiceStep(q, q, content);
        assert s == [q, q] + s[2..];
        content := [q] + content;
      } else {
        closed, rest := true, s[1..];
      }
    }
  }

  lemma PutBefore(piece: Lexeme, more: seq<Lexeme>)
    requires piece.Proper() && ProperText(more) && (more != [] ==> piece.Before(more[0]))
    ensures ProperText([piece] + more) && TextOf([piece] + more) == piece.Spelling() + TextOf(more)
  {
    var pieces := [piece] + more;
    assert pieces[1..] == more;
    assert forall i :: 0 <= i < |more| - 1 ==> more[i].Before(more[i + 1]);
  }

  /** Every text is made of such pieces. */
  lemma {:induction false} EveryText(s: string) returns (pieces: seq<Lexeme>)
    ensures ProperText(pieces) && TextOf(pieces) == s
    decreases |s|
  {
    pieces := [];
    if s != "" {
      var piece, rest := FirstPiece(s);
      if piece.Open? {
        PutBefore(piece, []);
        pieces := [piece] + [];
      } else {
        pieces := EveryText(rest);
        if pieces != [] {
          Starts(pieces[0]);
        }
        PutBefore(piece, pieces);
        pieces := [piece] + pieces;
      }
    }
  }

  lemma FirstQuotation(s: string) returns (piece: Lexeme, rest: string)
    requires s != "" && IsQuote(s[0])
    ensures piece.Proper() && s == piece.Spelling() + rest && |rest| < |s|
    ensures if piece.Open? then rest == "" else piece.Quotation? && (rest != "" ==> rest[0] != piece.quote)
  {
    hide Twice;
    var q := s[0];
    var content, closed, after := QuotedPrefix(q, s[1..]);
    piece, rest := if closed then Quotation(q, content) else Open(q, content), after;
    assert s == [q] + s[1..];
    if closed {
      QuoteGroups(q, Twice(q, content), q, rest);
    } else {
      QuoteGroups(q, Twice(q, content), q, []);
    }
  }

  lemma QuoteGroups<T>(a: T, b: seq<T>, c: T, rest: seq<T>)
    ensures [a] + (b + ([c] + rest)) == [a] + b + [c] + rest
    ensures [a] + (b + []) == [a] + b + []
  {
  }

  lemma FirstWord(s: string) returns (piece: Lexeme, rest: string)
    requires s != "" && IsPlain(s[0])
    ensures piece.Word? && piece.Proper() && s == piece.text + rest && |rest| < |s| && (rest != "" ==> !IsPlain(rest[0]))
  {
    var n := PlainEnd(s, 0);
    var w := s[..n];
    piece, rest := Word(w), s[n..];
    forall c | c in w ensures IsPlain(c) {
      var i :| 0 <= i < n && w[i] == c;
      assert s[i] == c;
    }
  }

  /** The piece a text starts with, and what follows it. */
  lemma FirstPiece(s: string) returns (piece: Lexeme, rest: string)
    requires s != ""
    ensures piece.Proper() && s == piece.Spelling() + rest && |rest| < |s| && (piece.Open? ==> rest == "")
    ensures rest != "" ==>
              match piece
              case Space(_) => true
              case Sign(c, withEquals) => !withEquals && c in "<>!" ==> rest[0] != '='
              case Word(_) => !IsPlain(rest[0])
              case Quotation(q, _) => rest[0] != q
              case Open(_, _) => true
  {
    var c := s[0];
    if IsQuote(c) {
      piece, rest := FirstQuotation(s);
    } else if IsPlain(c) {
      piece, rest := FirstWord(s);
    } else if IsSpace(c) {
      piece, rest := Space(c), s[1..];
    } else {
      var n := OperatorLength(s);
      piece, rest := Sign(c, n == 2), s[n..];
    }
  }

  /** The tokens of any text are what the pieces it is made of spell. */
  lemma TokensOfText(s: string)
    ensures exists pieces :: ProperText(pieces) && TextOf(pieces) == s && Spellings(pieces) == Lex(s, "", Outside)
  {
    var pieces := EveryText(s);
    LexText(pieces);
  }
}
