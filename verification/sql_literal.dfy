/**
 * SQL character string literals (ISO/IEC 9075, `<character string literal>`):
 * the text sits between single quotes and a quote inside it is written as two
 * quotes. `Escape` is Python's `s.replace("'", "''")`; `ReadLiteral` is how a
 * SQL reader takes such a literal back apart.
 */
module SqlLiteral {
  import opened Common

  const Quote: char := '\''

  /** `s.replace("'", "''")`. */
  function Escape(s: string): (r: string)
    ensures |r| >= |s|
  {
    if s == [] then []
    else (if s[0] == Quote then [Quote, Quote] else [s[0]]) + Escape(s[1..])
  }

  /** Quotes occur only in adjacent pairs. */
  predicate QuotesPaired(t: string)
    decreases |t|
  {
    if t == [] then true
    else if t[0] != Quote then QuotesPaired(t[1..])
    else |t| >= 2 && t[1] == Quote && QuotesPaired(t[2..])
  }

  /** Halve every pair of quotes. */
  function Unescape(t: string): string
    decreases |t|
  {
    if t == [] then []
    else if t[0] == Quote && |t| >= 2 && t[1] == Quote then [Quote] + Unescape(t[2..])
    else [t[0]] + Unescape(t[1..])
  }

  lemma {:induction false} EscapeCons(c: char, s: string)
    ensures Escape([c] + s) == (if c == Quote then [Quote, Quote] else [c]) + Escape(s)
  {
    assert ([c] + s)[1..] == s;
  }

  /** The escaped text has its quotes in pairs. */
  lemma {:induction false} EscapePairsQuotes(s: string)
    ensures QuotesPaired(Escape(s))
  {
    if s != [] {
      EscapePairsQuotes(s[1..]);
      var e := Escape(s);
      if s[0] == Quote {
        assert e[2..] == Escape(s[1..]);
      } else {
        assert e[1..] == Escape(s[1..]);
      }
    }
  }

  /** Halving the pairs recovers the original text. */
  lemma {:induction false} UnescapeEscape(s: string)
    ensures Unescape(Escape(s)) == s
  {
    if s != [] {
      UnescapeEscape(s[1..]);
      var e := Escape(s);
      if s[0] == Quote {
        assert e[2..] == Escape(s[1..]);
      } else {
        assert e[1..] == Escape(s[1..]);
      }
      assert s == [s[0]] + s[1..];
    }
  }

  /** Every quote-paired text is the escape of something: its halving. */
  lemma {:induction false} EscapeUnescape(t: string)
    requires QuotesPaired(t)
    ensures Escape(Unescape(t)) == t
    decreases |t|
  {
    if t != [] {
      if t[0] == Quote {
        EscapeUnescape(t[2..]);
        EscapeCons(Quote, Unescape(t[2..]));
        assert t == [Quote, Quote] + t[2..];
      } else {
        EscapeUnescape(t[1..]);
        EscapeCons(t[0], Unescape(t[1..]));
        assert t == [t[0]] + t[1..];
      }
    }
  }

  lemma EscapeInjective(a: string, b: string)
    requires Escape(a) == Escape(b)
    ensures a == b
  {
    UnescapeEscape(a);
    UnescapeEscape(b);
  }

  /** Escaping changes a text exactly when it holds a quote. */
  lemma {:induction false} EscapeUnchangedIff(s: string)
    ensures Escape(s) == s <==> Quote !in s
  {
    if s != [] {
      EscapeUnchangedIff(s[1..]);
      if s[0] == Quote {
        assert |Escape(s)| == 2 + |Escape(s[1..])|;
      } else {
        assert Escape(s) == [s[0]] + Escape(s[1..]);
        assert s == [s[0]] + s[1..];
        assert Quote in s <==> Quote in s[1..];
      }
    }
  }

  /** `'{s.replace("'", "''")}'`. */
  function Literal(s: string): string {
    [Quote] + Escape(s) + [Quote]
  }

  /** `'{s}'`: quoted without escaping. */
  function RawLiteral(s: string): string {
    [Quote] + s + [Quote]
  }

  /**
   * Read the body of a literal whose opening quote is already consumed: a
   * doubled quote stands for one quote, a single quote closes the literal.
   * Returns the text and what follows the closing quote.
   */
  function ReadBody(t: string): Option<(string, string)>
    decreases |t|
  {
    if t == [] then None
    else if t[0] == Quote then
      if |t| >= 2 && t[1] == Quote then
        match ReadBody(t[2..])
        case None => None
        case Some(p) => Some(([Quote] + p.0, p.1))
      else Some(([], t[1..]))
    else
      match ReadBody(t[1..])
      case None => None
      case Some(p) => Some(([t[0]] + p.0, p.1))
  }

  function ReadLiteral(t: string): Option<(string, string)> {
    if t == [] || t[0] != Quote then None else ReadBody(t[1..])
  }

  /** Whatever the reader returns was written as its escape followed by the closing quote. */
  lemma {:induction false} ReadBodySound(t: string)
    requires ReadBody(t).Some?
    ensures t == Escape(ReadBody(t).value.0) + [Quote] + ReadBody(t).value.1
    decreases |t|
  {
    var p := ReadBody(t).value;
    if t[0] == Quote {
      if |t| >= 2 && t[1] == Quote {
        ReadBodySound(t[2..]);
        var q := ReadBody(t[2..]).value;
        assert p == ([Quote] + q.0, q.1);
        EscapeCons(Quote, q.0);
        assert Escape(p.0) + [Quote] + p.1 == [Quote, Quote] + (Escape(q.0) + [Quote] + q.1);
        assert t == [Quote, Quote] + t[2..];
      } else {
        assert t == [Quote] + t[1..];
      }
    } else {
      ReadBodySound(t[1..]);
      var q := ReadBody(t[1..]).value;
      assert p == ([t[0]] + q.0, q.1);
      EscapeCons(t[0], q.0);
      assert Escape(p.0) + [Quote] + p.1 == [t[0]] + (Escape(q.0) + [Quote] + q.1);
      assert t == [t[0]] + t[1..];
    }
  }

  /** The reader takes an escaped literal back to the original text. */
  lemma {:induction false} ReadBodyEscaped(s: string, rest: string)
    requires rest == [] || rest[0] != Quote
    ensures ReadBody(Escape(s) + [Quote] + rest) == Some((s, rest))
  {
    var t := Escape(s) + [Quote] + rest;
    if s == [] {
      assert t == [Quote] + rest;
    } else {
      ReadBodyEscaped(s[1..], rest);
      EscapeCons(s[0], s[1..]);
      assert s == [s[0]] + s[1..];
      if s[0] == Quote {
        assert t == [Quote, Quote] + (Escape(s[1..]) + [Quote] + rest);
        assert t[2..] == Escape(s[1..]) + [Quote] + rest;
      } else {
        assert t == [s[0]] + (Escape(s[1..]) + [Quote] + rest);
        assert t[1..] == Escape(s[1..]) + [Quote] + rest;
      }
    }
  }

  /** Round trip: a literal written by `Literal` reads back as the text it quotes. */
  lemma LiteralReadsBack(s: string, rest: string)
    requires rest == [] || rest[0] != Quote
    ensures ReadLiteral(Literal(s) + rest) == Some((s, rest))
  {
    ReadBodyEscaped(s, rest);
    assert (Literal(s) + rest)[1..] == Escape(s) + [Quote] + rest;
  }

  /** A text holding a quote, quoted without escaping, does not read back as itself. */
  lemma RawLiteralMisreads(s: string, rest: string)
    requires Quote in s
    ensures ReadLiteral(RawLiteral(s) + rest) != Some((s, rest))
  {
    var t := RawLiteral(s) + rest;
    assert t[1..] == s + [Quote] + rest;
    if ReadLiteral(t) == Some((s, rest)) {
      ReadBodySound(t[1..]);
      assert s + [Quote] + rest == Escape(s) + [Quote] + rest;
      assert |Escape(s)| == |s|;
      assert Escape(s) == (Escape(s) + [Quote] + rest)[..|s|];
      EscapeUnchangedIff(s);
      assert false;
    }
  }

  /**
   * Quoting without escaping is harmless exactly when the text holds no
   * quote: then the raw literal reads back as the text, otherwise it never does.
   */
  lemma RawLiteralReadsBackIff(s: string, rest: string)
    requires rest == [] || rest[0] != Quote
    ensures ReadLiteral(RawLiteral(s) + rest) == Some((s, rest)) <==> Quote !in s
  {
    if Quote in s {
      RawLiteralMisreads(s, rest);
    } else {
      EscapeUnchangedIff(s);
      assert RawLiteral(s) == Literal(s);
      LiteralReadsBack(s, rest);
    }
  }
}
