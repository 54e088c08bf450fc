/** `escapeSingleQuotes` (main.go): every single quote is doubled, nothing else
    is touched. */
module Escaping {

  const Quote: char := '\''

  /** strings.ReplaceAll(s, "'", "''"). */
  function Escape(s: string): (r: string)
  {
    if s == [] then []
    else (if s[0] == Quote then [Quote, Quote] else [s[0]]) + Escape(s[1..])
  }

  /** Escaping lengthens a string by exactly the number of quotes in it. */
  lemma {:induction false} EscapeLength(s: string)
    ensures |Escape(s)| == |s| + multiset(s)[Quote]
  {
    if s != [] {
      EscapeLength(s[1..]);
      assert s == [s[0]] + s[1..];
      assert multiset(s) == multiset{s[0]} + multiset(s[1..]);
    }
  }

  /** A string without quotes comes back unchanged. */
  lemma {:induction false} EscapeWithoutQuotes(s: string)
    requires Quote !in s
    ensures Escape(s) == s
  {
    if s != [] {
      EscapeWithoutQuotes(s[1..]);
      assert [s[0]] + s[1..] == s;
    }
  }

  /** The reading a SQL parser applies inside a quoted literal: each `''`
      collapses back to one `'`. */
  function Unescape(t: string): (r: string)
  {
    if t == [] then []
    else if |t| >= 2 && t[0] == Quote && t[1] == Quote then [Quote] + Unescape(t[2..])
    else [t[0]] + Unescape(t[1..])
  }

  /** Every quote in `t` belongs to a doubled pair `''`. */
  predicate QuotesDoubled(t: string)
  {
    if t == [] then true
    else if t[0] != Quote then QuotesDoubled(t[1..])
    else |t| >= 2 && t[1] == Quote && QuotesDoubled(t[2..])
  }

  lemma {:induction false} UnescapeEscape(s: string)
    ensures Unescape(Escape(s)) == s
  {
    if s != [] {
      UnescapeEscape(s[1..]);
      var rest := Escape(s[1..]);
      if s[0] == Quote {
        assert Escape(s) == [Quote, Quote] + rest;
        assert (Escape(s))[2..] == rest;
      } else {
        assert Escape(s) == [s[0]] + rest;
        assert (Escape(s))[1..] == rest;
      }
    }
  }

  lemma {:induction false} EscapeDoublesQuotes(s: string)
    ensures QuotesDoubled(Escape(s))
  {
    if s != [] {
      EscapeDoublesQuotes(s[1..]);
      var rest := Escape(s[1..]);
      if s[0] == Quote {
        assert (Escape(s))[2..] == rest;
      } else {
        assert (Escape(s))[1..] == rest;
      }
    }
  }

  /** Escaping is onto the strings whose quotes are all doubled: such a string
      is the escape of its own unescaping. */
  lemma {:induction false} EscapeUnescape(t: string)
    requires QuotesDoubled(t)
    ensures Escape(Unescape(t)) == t
  {
    if t != [] {
      if t[0] == Quote {
        EscapeUnescape(t[2..]);
        assert t == [Quote, Quote] + t[2..];
      } else {
        EscapeUnescape(t[1..]);
        assert t == [t[0]] + t[1..];
      }
    }
  }
}
