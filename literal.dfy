/**
  SQL literals for the cells of an override row.  The recorder writes a cell
  into its INSERT as text: NULL for a missing value, a quoted character
  string literal for a string (an embedded quote doubled, as in section 5.3
  of ISO/IEC 9075-2), and the Python text form for anything else.  `Denote`
  is what the database reads back from one such piece of text.
 */
module Literal {
  import opened Values

  const Quote: char := '\''
  const Backslash: char := '\\'

  /** Text that reads as itself between quotes: it has no quote, which
      would end the literal, and no backslash, which Snowflake reads as the
      start of an escape sequence. */
  predicate Verbatim(t: string) {
    Quote !in t && Backslash !in t
  }

  /** `s.replace("'", "''")` */
  function Double(s: string): (d: string)
    ensures |d| == |s| + multiset(s)[Quote]
  {
    if s == [] then []
    else
      assert s == [s[0]] + s[1..];
      (if s[0] == Quote then [Quote, Quote] else [s[0]]) + Double(s[1..])
  }

  function Prepend(c: char, o: Option<string>): Option<string> {
    match o
    case None => None
    case Some(s) => Some([c] + s)
  }

  /** The characters between the quotes of a character string literal: a
      doubled quote stands for one quote, and a lone quote would end the
      literal early, so text holding one is not the inside of a literal. */
  function Undouble(t: string): Option<string> {
    if t == [] then Some([])
    else if t[0] != Quote then Prepend(t[0], Undouble(t[1..]))
    else if |t| >= 2 && t[1] == Quote then Prepend(Quote, Undouble(t[2..]))
    else None
  }

  /** Doubling the quotes leaves every other character where it was found:
      one is in the doubled string exactly when it is in the string. */
  lemma {:induction false} DoubleKeeps(s: string, c: char)
    requires c != Quote
    ensures c in Double(s) <==> c in s
  {
    if s != [] {
      DoubleKeeps(s[1..], c);
      DoubleHead(s[0], s[1..]);
      assert s == [s[0]] + s[1..];
    }
  }

  /** Un-doubling the quotes of `s.replace("'", "''")` gives back `s`. */
  lemma {:induction false} UndoubleDouble(s: string)
    ensures Undouble(Double(s)) == Some(s)
  {
    if s != [] {
      UndoubleDouble(s[1..]);
      var d := Double(s);
      if s[0] == Quote {
        assert d[2..] == Double(s[1..]);
      } else {
        assert d[1..] == Double(s[1..]);
      }
      assert s == [s[0]] + s[1..];
    }
  }

  /** And the other way: the inside of a literal is the doubling of what it
      reads as, so every literal is the encoding of exactly one string. */
  lemma {:induction false} DoubleUndouble(t: string, s: string)
    requires Undouble(t) == Some(s)
    ensures Double(s) == t
    decreases |t|
  {
    if t != [] {
      var d := ReadableHead(t);
      var rest := Undouble(t[d..]).value;
      DoubleUndouble(t[d..], rest);
      UndoubleCons(t, d, rest);
      assert s == [t[0]] + rest;
      DoubleCons(t, d, rest);
    }
  }

  /** A readable text reads as its first character followed by what the
      rest reads as. */
  lemma UndoubleCons(t: string, d: nat, rest: string)
    requires (d == 1 && t != [] && t[0] != Quote) || (d == 2 && |t| >= 2 && t[0] == Quote && t[1] == Quote)
    requires Undouble(t[d..]) == Some(rest)
    ensures Undouble(t) == Some([t[0]] + rest)
  {
  }

  /** Doubling works character by character: the first character of a
      readable text, doubled if it is a quote, followed by the doubling of
      what the rest reads as, is the text again. */
  lemma DoubleCons(t: string, d: nat, rest: string)
    requires (d == 1 && t != [] && t[0] != Quote) || (d == 2 && |t| >= 2 && t[0] == Quote && t[1] == Quote)
    requires Double(rest) == t[d..]
    ensures Double([t[0]] + rest) == t
  {
    DoubleHead(t[0], rest);
    if d == 1 {
      assert t == [t[0]] + t[1..];
    } else {
      assert t == [Quote, Quote] + t[2..];
    }
  }

  /** Doubling a string that starts with `c`. */
  lemma DoubleHead(c: char, rest: string)
    ensures Double([c] + rest) == (if c == Quote then [Quote, Quote] else [c]) + Double(rest)
  {
    assert ([c] + rest)[1..] == rest;
  }

  /** Text without a quote reads as itself. */
  lemma {:induction false} UndoubleQuoteFree(t: string)
    requires Quote !in t
    ensures Undouble(t) == Some(t)
  {
    if t != [] {
      assert Quote !in t[1..];
      UndoubleQuoteFree(t[1..]);
      assert t == [t[0]] + t[1..];
    }
  }

  /** t[i..j] is a run of quotes that cannot be extended either way. */
  ghost predicate MaximalQuoteRun(t: string, i: int, j: int) {
    && 0 <= i < j <= |t|
    && (forall k :: i <= k < j ==> t[k] == Quote)
    && (i == 0 || t[i - 1] != Quote)
    && (j == |t| || t[j] != Quote)
  }

  /** A run that cannot be extended within t[d..] is maximal there. */
  lemma RunShift(t: string, d: nat, i: int, j: int)
    requires d <= i < j <= |t|
    requires forall k :: i <= k < j ==> t[k] == Quote
    requires i == d || t[i - 1] != Quote
    requires j == |t| || t[j] != Quote
    ensures MaximalQuoteRun(t[d..], i - d, j - d)
  {
    var u := t[d..];
    forall k | i - d <= k < j - d ensures u[k] == Quote {
      assert u[k] == t[k + d];
    }
    if i - d > 0 {
      assert u[i - d - 1] == t[i - 1];
    }
    if j - d < |u| {
      assert u[j - d] == t[j];
    }
  }

  /** The inside of a literal has no run of quotes of odd length. */
  lemma {:induction false} ReadableRunsEven(t: string, i: int, j: int)
    requires Undouble(t).Some?
    requires MaximalQuoteRun(t, i, j)
    ensures (j - i) % 2 == 0
    decreases |t|, 2
  {
    var d := ReadableHead(t);
    if d == 1 {
      RunAfterOrdinary(t, i, j);
    } else {
      RunAfterPair(t, i, j);
    }
  }

  /** After an ordinary first character, every run lies in the rest. */
  lemma {:induction false} RunAfterOrdinary(t: string, i: int, j: int)
    requires t != [] && t[0] != Quote && Undouble(t[1..]).Some?
    requires MaximalQuoteRun(t, i, j)
    ensures (j - i) % 2 == 0
    decreases |t|, 1
  {
    RunShift(t, 1, i, j);
    ReadableRunsEven(t[1..], i - 1, j - 1);
    assert (j - 1) - (i - 1) == j - i;
  }

  /** After an opening doubled quote, a run either starts with that pair
      and goes on in the rest, or lies in the rest. */
  lemma {:induction false} RunAfterPair(t: string, i: int, j: int)
    requires |t| >= 2 && t[0] == Quote && t[1] == Quote && Undouble(t[2..]).Some?
    requires MaximalQuoteRun(t, i, j)
    ensures (j - i) % 2 == 0
    decreases |t|, 1
  {
    if i == 0 {
      PairOpensRun(t, j);
      if j > 2 {
        ReadableRunsEven(t[2..], 0, j - 2);
        assert (j - 2 - 0) % 2 == 0;
      }
      assert j % 2 == 0;
    } else {
      PairEndsNoRun(t, i, j);
      ReadableRunsEven(t[2..], i - 2, j - 2);
      assert (j - 2) - (i - 2) == j - i;
    }
  }

  /** A run opening with a doubled quote is that pair followed by a run of
      the rest, if any. */
  lemma PairOpensRun(t: string, j: int)
    requires |t| >= 2 && t[0] == Quote && t[1] == Quote
    requires MaximalQuoteRun(t, 0, j)
    ensures j >= 2
    ensures j > 2 ==> MaximalQuoteRun(t[2..], 0, j - 2)
  {
    assert j != 1;
    if j > 2 {
      RunShift(t, 2, 2, j);
    }
  }

  /** A run that does not start at the opening doubled quote lies in the
      rest. */
  lemma PairEndsNoRun(t: string, i: int, j: int)
    requires |t| >= 2 && t[0] == Quote && t[1] == Quote
    requires MaximalQuoteRun(t, i, j) && i != 0
    ensures i >= 2 && MaximalQuoteRun(t[2..], i - 2, j - 2)
  {
    assert i != 1;
    RunShift(t, 2, i, j);
  }

  /** A readable text opens with one ordinary character or with two quotes,
      and the rest is readable. */
  lemma ReadableHead(t: string) returns (d: nat)
    requires t != [] && Undouble(t).Some?
    ensures d <= |t| && Undouble(t[d..]).Some?
    ensures (d == 1 && t[0] != Quote) || (d == 2 && t[0] == Quote && t[1] == Quote)
  {
    d := if t[0] != Quote then 1 else 2;
  }

  /** So a doubled string never holds an odd run of quotes. */
  lemma DoubledRunsEven(s: string, i: int, j: int)
    requires MaximalQuoteRun(Double(s), i, j)
    ensures (j - i) % 2 == 0
  {
    UndoubleDouble(s);
    ReadableRunsEven(Double(s), i, j);
  }

  /** The literal written for one common-column cell. */
  function Encode(v: Value): (lit: string)
    ensures v == Null ==> lit == "NULL"
    ensures v.Str? ==> |lit| >= 2 && lit[0] == Quote && lit[|lit| - 1] == Quote
    ensures v.Str? ==> Undouble(lit[1..|lit| - 1]) == Some(v.s)
  {
    match v
    case Null => "NULL"
    case Str(s) =>
      var lit := [Quote] + Double(s) + [Quote];
      assert lit[1..|lit| - 1] == Double(s);
      UndoubleDouble(s);
      lit
    case Scalar(t) => t
  }

  predicate IsDigit(c: char) { '0' <= c <= '9' }

  /** A character of a number as Python prints one: digits, a point, an
      exponent mark, and a sign at the start or after the exponent mark. */
  predicate NumberChar(t: string, k: int)
    requires 0 <= k < |t|
  {
    || IsDigit(t[k]) || t[k] == '.' || t[k] == 'e' || t[k] == 'E'
    || (t[k] == '-' && k == 0)
    || ((t[k] == '-' || t[k] == '+') && k > 0 && (t[k - 1] == 'e' || t[k - 1] == 'E'))
  }

  /** Text that the database reads as a bare number or boolean literal: a
      number starting with a digit, after an optional minus sign, or
      Python's `True` or `False`.  Other text Python prints for a value
      is not one: `nan` and `inf` read as column names, a date such as
      `2024-01-01` reads as a subtraction, and a timestamp holds a space
      and colons. */
  predicate ScalarToken(t: string) {
    || t == "True" || t == "False"
    || (&& t != []
        && (var d := if t[0] == '-' then 1 else 0; d < |t| && IsDigit(t[d]))
        && forall k :: 0 <= k < |t| ==> NumberChar(t, k))
  }

  /** A cell whose literal the database reads back as that cell: a string
      without a backslash, or a scalar printed as a number or a boolean. */
  predicate Denotable(v: Value) {
    match v
    case Null => true
    case Str(s) => Backslash !in s
    case Scalar(t) => ScalarToken(t)
  }

  /** The value the database reads from one piece of a VALUES list, or None
      when the piece is not a literal and the statement is rejected.  `now`
      is the value of CURRENT_TIMESTAMP() when the statement runs.  A
      quoted literal is read by doubled quotes alone; one holding a
      backslash, which Snowflake reads as an escape, is not read.  Every
      other piece it reads is the encoding of a readable cell, so there is
      one way to write each cell; `LiteralRoundTrip` is the converse. */
  function Denote(frag: string, now: Value): (r: Option<Value>)
    ensures frag == "CURRENT_TIMESTAMP()" ==> r == Some(now)
    ensures frag != "CURRENT_TIMESTAMP()" && r.Some? ==> Denotable(r.value) && Encode(r.value) == frag
  {
    if frag == "NULL" then Some(Null)
    else if frag == "CURRENT_TIMESTAMP()" then Some(now)
    else if |frag| >= 2 && frag[0] == Quote && frag[|frag| - 1] == Quote then
      var body := frag[1..|frag| - 1];
      if Backslash in body then None
      else
        match Undouble(body)
        case Some(s) =>
          QuotedCanonical(frag, s);
          DoubleUndouble(body, s);
          DoubleKeeps(s, Backslash);
          Some(Str(s))
        case None => None
    else if ScalarToken(frag) then Some(Scalar(frag))
    else None
  }

  /** A date or a timestamp held as a scalar is written without quotes,
      and the database does not read it as a literal. */
  lemma BareDateUnreadable(now: Value)
    ensures Denote(Encode(Scalar("2024-01-01")), now) == None
    ensures Denote(Encode(Scalar("2024-01-01 00:00:00")), now) == None
  {
    var date, stamp := "2024-01-01", "2024-01-01 00:00:00";
    assert !NumberChar(date, 4);
    assert !NumberChar(stamp, 4);
  }

  /** Every cell with a readable text form survives the trip through its
      literal. */
  lemma LiteralRoundTrip(v: Value, now: Value)
    requires Denotable(v)
    ensures Denote(Encode(v), now) == Some(v)
  {
    if v.Str? {
      var lit := Encode(v);
      EncodeString(v.s);
      assert lit[1..|lit| - 1] == Double(v.s);
      DoubleKeeps(v.s, Backslash);
    }
  }

  /** A string holding a backslash has no literal the database reads back
      as that string: it would read the backslash as an escape. */
  lemma BackslashUnreadable(s: string, now: Value)
    requires Backslash in s
    ensures !Denotable(Str(s)) && Denote(Encode(Str(s)), now) == None
  {
    var lit := Encode(Str(s));
    EncodeString(s);
    assert lit[1..|lit| - 1] == Double(s);
    DoubleKeeps(s, Backslash);
  }

  /** So `'a\'`, which leaves the literal open, and `'C:\temp'`, which
      holds a tab, are not read as the strings they were written for. */
  lemma BackslashExamples(now: Value)
    ensures Denote(Encode(Str("a\\")), now) == None
    ensures Denote(Encode(Str("C:\\temp")), now) == None
  {
    var a, c := "a\\", "C:\\temp";
    assert a[1] == Backslash;
    BackslashUnreadable(a, now);
    assert c[2] == Backslash;
    BackslashUnreadable(c, now);
  }

  /** A quoted literal is the doubling of the string it reads as, between
      quotes. */
  lemma QuotedCanonical(frag: string, s: string)
    requires |frag| >= 2 && frag[0] == Quote && frag[|frag| - 1] == Quote
    requires Undouble(frag[1..|frag| - 1]) == Some(s)
    ensures Encode(Str(s)) == frag
  {
    Rewrap(frag);
    DoubleUndouble(frag[1..|frag| - 1], s);
    EncodeString(s);
  }

  /** A piece between quotes is its inside with the quotes put back. */
  lemma Rewrap(frag: string)
    requires |frag| >= 2 && frag[0] == Quote && frag[|frag| - 1] == Quote
    ensures frag == [Quote] + frag[1..|frag| - 1] + [Quote]
  {
  }

  /** A string's literal is its doubling between quotes. */
  lemma EncodeString(s: string)
    ensures Encode(Str(s)) == [Quote] + Double(s) + [Quote]
  {
  }

  /** A verbatim text put between quotes reads as that string. */
  lemma QuotedTextDenotes(t: string, now: Value)
    requires Verbatim(t)
    ensures Denote([Quote] + t + [Quote], now) == Some(Str(t))
  {
    var frag := [Quote] + t + [Quote];
    assert frag[1..|frag| - 1] == t;
    UndoubleQuoteFree(t);
  }
}
