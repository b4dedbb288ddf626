/** PostgreSQL quoting by doubling, and the scanner that undoes it (sections 4.1.1 and
    4.1.2.1 of the PostgreSQL documentation, standard-conforming strings). */
module Sql {
  import opened Wrappers

  /** Every occurrence of the quote character doubled. */
  function Doubled(s: string, q: char): string {
    if s == "" then "" else (if s[0] == q then [q, q] else [s[0]]) + Doubled(s[1..], q)
  }

  function Quote(s: string, q: char): string { [q] + Doubled(s, q) + [q] }

  /** `quote_ident`. */
  function QuoteIdent(ident: string): string { Quote(ident, '"') }

  /** `quote_literal`. */
  function QuoteLiteral(value: string): string { Quote(value, '\'') }

  /** Reads a quoted text: up to the first quote that is not followed by another. */
  function Scan(s: string, q: char): Option<(string, string)> {
    if s == "" || s[0] != q then None else ScanBody(s[1..], q)
  }

  function ScanBody(s: string, q: char): Option<(string, string)> {
    if s == "" then None
    else if s[0] != q then Prepend(s[0], ScanBody(s[1..], q))
    else if |s| > 1 && s[1] == q then Prepend(q, ScanBody(s[2..], q))
    else Some(("", s[1..]))
  }

  predicate Continues(rest: string, q: char) { rest != "" && rest[0] == q }

  lemma {:induction false} ScanDoubled(s: string, q: char, rest: string)
    ensures !Continues(rest, q) ==> ScanBody(Doubled(s, q) + [q] + rest, q) == Some((s, rest))
    ensures Continues(rest, q) ==> ScanBody(Doubled(s, q) + [q] + rest, q) != Some((s, rest))
  {
    var text := Doubled(s, q) + [q] + rest;
    if s == "" {
      assert text == [q] + rest;
      if Continues(rest, q) { assert text[1] == q; }
    } else {
      var tail := Doubled(s[1..], q) + [q] + rest;
      ScanDoubled(s[1..], q, rest);
      assert s == [s[0]] + s[1..];
      if s[0] == q {
        assert text == [q, q] + tail;
        assert text[2..] == tail;
      } else {
        assert text == [s[0]] + tail;
        assert text[1..] == tail;
      }
    }
  }

  /** The scanner stops exactly at the end of what was quoted and gives it back, unless
      and only unless the next character is the quote again. */
  lemma {:induction false} QuoteScans(s: string, q: char, rest: string)
    ensures Scan(Quote(s, q) + rest, q) == Some((s, rest)) <==> !Continues(rest, q)
  {
    var text := Quote(s, q) + rest;
    assert text[1..] == Doubled(s, q) + [q] + rest;
    ScanDoubled(s, q, rest);
  }

  /** Different texts are quoted differently, identifiers and literals alike. */
  lemma {:induction false} QuoteInjective(a: string, b: string, q: char)
    ensures Quote(a, q) == Quote(b, q) <==> a == b
  {
    QuoteScans(a, q, "");
    QuoteScans(b, q, "");
    assert Quote(a, q) + "" == Quote(a, q) && Quote(b, q) + "" == Quote(b, q);
  }

  /** What `quote_ident` writes is read back whole, and nothing after it, exactly when no
      double quote follows. */
  lemma {:induction false} IdentScans(ident: string, rest: string)
    ensures Scan(QuoteIdent(ident) + rest, '"') == Some((ident, rest)) <==> !Continues(rest, '"')
  {
    QuoteScans(ident, '"', rest);
  }

  /** And what `quote_literal` writes exactly when no single quote follows. */
  lemma {:induction false} LiteralScans(value: string, rest: string)
    ensures Scan(QuoteLiteral(value) + rest, '\'') == Some((value, rest)) <==> !Continues(rest, '\'')
  {
    QuoteScans(value, '\'', rest);
  }

  /** Neither confuses two texts, and no identifier is quoted as a literal is. */
  lemma {:induction false} QuotedApart(a: string, b: string)
    ensures QuoteIdent(a) == QuoteIdent(b) <==> a == b
    ensures QuoteLiteral(a) == QuoteLiteral(b) <==> a == b
    ensures QuoteIdent(a) != QuoteLiteral(b)
  {
    QuoteInjective(a, b, '"');
    QuoteInjective(a, b, '\'');
    assert QuoteIdent(a)[0] == '"' && QuoteLiteral(b)[0] == '\'';
  }
}
