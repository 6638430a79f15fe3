/** Cell values of the movies table, their display text, the case-insensitive
    substring test behind the search boxes, and the order used to sort a column. */
module Values {

  /** A scalar read from the movies file: text or an integer (floating-point
      columns are represented by their integer value, see README). */
  datatype Value = Text(s: string) | Number(n: int)

  /** A cell of the table; Missing is pandas' NaN. */
  datatype Cell = Missing | Present(v: Value)

  function DigitChar(d: nat): char
    requires d < 10
  {
    ('0' as int + d) as char
  }

  /** Decimal rendering of a natural number, as Python's str() writes it:
      digits only, most significant first, no leading zero. */
  function NatDecimal(n: nat): (r: string)
    ensures |r| > 0
    ensures forall k :: 0 <= k < |r| ==> '0' <= r[k] <= '9'
    ensures n < 10 <==> |r| == 1
    ensures r[0] == '0' <==> n == 0
  {
    if n < 10 then [DigitChar(n)] else NatDecimal(n / 10) + [DigitChar(n % 10)]
  }

  /** The number a string of decimal digits denotes, most significant digit first. */
  ghost function DecimalValue(s: string): nat
    requires forall k :: 0 <= k < |s| ==> '0' <= s[k] <= '9'
  {
    if s == [] then 0
    else DecimalValue(s[..|s| - 1]) * 10 + (s[|s| - 1] as int - '0' as int)
  }

  /** The text of a row label reads back as that label. */
  lemma {:induction false} NatDecimalValue(n: nat)
    ensures DecimalValue(NatDecimal(n)) == n
  {
    var r := NatDecimal(n);
    if n >= 10 {
      NatDecimalValue(n / 10);
      assert r[..|r| - 1] == NatDecimal(n / 10);
      assert r[|r| - 1] == DigitChar(n % 10);
    }
  }

  /** Distinct numbers are rendered as distinct strings. */
  lemma NatDecimalInjective(a: nat, b: nat)
    requires NatDecimal(a) == NatDecimal(b)
    ensures a == b
  {
    NatDecimalValue(a);
    NatDecimalValue(b);
  }

  /** Decimal rendering of an integer, with a leading '-' when negative. */
  function IntDecimal(n: int): string
  {
    if n < 0 then "-" + NatDecimal(-n) else NatDecimal(n)
  }

  /** The text of a number reads back as that number: a '-' exactly for a
      negative one, then the digits of its magnitude. */
  lemma IntDecimalValue(n: int)
    ensures var r := IntDecimal(n);
      && |r| > 0
      && (r[0] == '-' <==> n < 0)
      && (n < 0 ==> r[1..] == NatDecimal(-n) && DecimalValue(r[1..]) == -n)
      && (n >= 0 ==> r == NatDecimal(n) && DecimalValue(r) == n)
  {
    if n < 0 {
      NatDecimalValue(-n);
      assert IntDecimal(n)[1..] == NatDecimal(-n);
    } else {
      NatDecimalValue(n);
    }
  }

  /** The string form of a cell, as `str(...)` and `astype(str)` produce it;
      pandas renders a missing value as "nan". */
  function CellText(c: Cell): (r: string)
    ensures c.Missing? ==> r == "nan"
    ensures c.Present? && c.v.Text? ==> r == c.v.s
    ensures c.Present? && c.v.Number? ==>
      |r| > 0 && (r[0] == '-' <==> c.v.n < 0) && r[(if c.v.n < 0 then 1 else 0)..] == NatDecimal(if c.v.n < 0 then -c.v.n else c.v.n)
  {
    match c
    case Missing => "nan"
    case Present(Text(s)) => s
    case Present(Number(n)) => IntDecimalValue(n); IntDecimal(n)
  }

  function LowerChar(c: char): char
  {
    if 'A' <= c <= 'Z' then (c as int + 32) as char else c
  }

  /** ASCII lower-casing, the case-insensitive comparison of the search. */
  function Lower(s: string): string
  {
    seq(|s|, i requires 0 <= i < |s| => LowerChar(s[i]))
  }

  /** `pattern` occurs in `text` starting at position i. */
  ghost predicate OccursAt(pattern: string, text: string, i: int)
  {
    0 <= i && i + |pattern| <= |text| && text[i..i + |pattern|] == pattern
  }

  /** Substring test, scanning the start positions of `text` left to right. */
  predicate Contains(text: string, pattern: string)
    ensures Contains(text, pattern) ==> |pattern| <= |text|
    ensures pattern == [] ==> Contains(text, pattern)
    decreases |text|
  {
    if |pattern| > |text| then false
    else if text[..|pattern|] == pattern then true
    else Contains(text[1..], pattern)
  }

  lemma OccursShift(pattern: string, text: string, i: int)
    requires |text| > 0 && 0 <= i
    ensures OccursAt(pattern, text[1..], i) <==> OccursAt(pattern, text, i + 1)
  {
    if 0 <= i && i + |pattern| <= |text[1..]| {
      assert text[1..][i..i + |pattern|] == text[i + 1..i + 1 + |pattern|];
    }
  }

  /** The scan finds `pattern` exactly when it occurs somewhere in `text`. */
  lemma {:induction false} ContainsIffOccurs(text: string, pattern: string)
    ensures Contains(text, pattern) <==> exists i :: OccursAt(pattern, text, i)
    decreases |text|
  {
    if |pattern| > |text| {
      assert forall i :: !OccursAt(pattern, text, i);
    } else if text[..|pattern|] == pattern {
      assert OccursAt(pattern, text, 0);
    } else {
      ContainsIffOccurs(text[1..], pattern);
      assert !OccursAt(pattern, text, 0);
      if Contains(text, pattern) {
        var i :| OccursAt(pattern, text[1..], i);
        OccursShift(pattern, text, i);
      } else {
        forall j | OccursAt(pattern, text, j) ensures false {
          OccursShift(pattern, text, j - 1);
        }
      }
    }
  }

  /** The search box predicate: the cell's string form contains the query,
      ignoring case. */
  predicate CellMatches(c: Cell, query: string)
    ensures CellMatches(c, query) <==> exists i :: OccursAt(Lower(query), Lower(CellText(c)), i)
  {
    ContainsIffOccurs(Lower(CellText(c)), Lower(query));
    Contains(Lower(CellText(c)), Lower(query))
  }

  lemma LowerAc()
    ensures Lower("ac") == "ac"
  {
  }

  lemma CapitalisedMatch()
    ensures CellMatches(Present(Text("Action")), "ac")
  {
    LowerAc();
    assert Lower("Action") == "action";
    assert "action"[..2] == "ac";
  }

  lemma LowerCaseMatch()
    ensures CellMatches(Present(Text("action")), "ac")
  {
    LowerAc();
    assert Lower("action") == "action";
    assert "action"[..2] == "ac";
  }

  lemma InnerMatch()
    ensures CellMatches(Present(Text("Fracas")), "ac")
  {
    LowerAc();
    assert Lower("Fracas") == "fracas";
    assert "fracas"[..2][0] == 'f' && "fracas"[1..] == "racas";
    assert "racas"[..2][0] == 'r' && "racas"[1..] == "acas";
    assert "acas"[..2] == "ac";
  }

  lemma NoMatch()
    ensures !CellMatches(Present(Text("Comedy")), "ac")
  {
    LowerAc();
    assert Lower("Comedy") == "comedy";
    assert "comedy"[1..] == "omedy" && "omedy"[1..] == "medy" && "medy"[1..] == "edy";
    assert "edy"[1..] == "dy" && "dy"[1..] == "y";
    assert !Contains("y", "ac");
    assert "dy"[..2][0] == 'd' && !Contains("dy", "ac");
    assert "edy"[..2][0] == 'e' && !Contains("edy", "ac");
    assert "medy"[..2][0] == 'm' && !Contains("medy", "ac");
    assert "omedy"[..2][0] == 'o' && !Contains("omedy", "ac");
    assert "comedy"[..2][0] == 'c';
  }

  /** The searches "ac" finds "Action", "action" and "Fracas" but not "Comedy". */
  lemma QueryExamples()
    ensures CellMatches(Present(Text("Action")), "ac")
    ensures CellMatches(Present(Text("action")), "ac")
    ensures CellMatches(Present(Text("Fracas")), "ac")
    ensures !CellMatches(Present(Text("Comedy")), "ac")
  {
    CapitalisedMatch();
    LowerCaseMatch();
    InnerMatch();
    NoMatch();
  }

  // ---------------------------------------------------------------------
  // Sort order of a column

  /** Lexicographic order of strings by code point, as Python compares them. */
  predicate TextLe(a: string, b: string)
    decreases |a|
  {
    if a == [] then true
    else if b == [] then false
    else if a[0] != b[0] then a[0] < b[0]
    else TextLe(a[1..], b[1..])
  }

  lemma {:induction false} TextLeTotal(a: string, b: string)
    ensures TextLe(a, b) || TextLe(b, a)
    decreases |a|
  {
    if a != [] && b != [] && a[0] == b[0] {
      TextLeTotal(a[1..], b[1..]);
    }
  }

  lemma {:induction false} TextLeTransitive(a: string, b: string, c: string)
    requires TextLe(a, b) && TextLe(b, c)
    ensures TextLe(a, c)
    decreases |a|
  {
    if a != [] && b != [] && c != [] && a[0] == b[0] && b[0] == c[0] {
      TextLeTransitive(a[1..], b[1..], c[1..]);
    }
  }

  lemma {:induction false} TextLeAntisymmetric(a: string, b: string)
    requires TextLe(a, b) && TextLe(b, a)
    ensures a == b
    decreases |a|
  {
    if a != [] && b != [] {
      TextLeAntisymmetric(a[1..], b[1..]);
      assert a == [a[0]] + a[1..] && b == [b[0]] + b[1..];
    }
  }

  /** Order of present values: numbers numerically, text lexicographically;
      a number sorts before text (a column never mixes the two). */
  predicate ValueLe(x: Value, y: Value)
  {
    match (x, y)
    case (Number(m), Number(n)) => m <= n
    case (Text(s), Text(t)) => TextLe(s, t)
    case (Number(_), Text(_)) => true
    case (Text(_), Number(_)) => false
  }

  /** Cell a may stand before cell b in a column sorted in the given direction:
      present values follow ValueLe (reversed when descending) and missing
      values go last in both directions, as pandas' default na_position does. */
  predicate Precedes(a: Cell, b: Cell, ascending: bool)
  {
    match (a, b)
    case (_, Missing) => true
    case (Missing, Present(_)) => false
    case (Present(x), Present(y)) => if ascending then ValueLe(x, y) else ValueLe(y, x)
  }

  lemma ValueLeTotal(x: Value, y: Value)
    ensures ValueLe(x, y) || ValueLe(y, x)
  {
    if x.Text? && y.Text? { TextLeTotal(x.s, y.s); }
  }

  lemma PrecedesTotal(a: Cell, b: Cell, ascending: bool)
    ensures Precedes(a, b, ascending) || Precedes(b, a, ascending)
  {
    if a.Present? && b.Present? { ValueLeTotal(a.v, b.v); }
  }

  lemma ValueLeTransitive(x: Value, y: Value, z: Value)
    requires ValueLe(x, y) && ValueLe(y, z)
    ensures ValueLe(x, z)
  {
    if x.Text? && y.Text? && z.Text? { TextLeTransitive(x.s, y.s, z.s); }
  }

  lemma PrecedesTransitive(a: Cell, b: Cell, c: Cell, ascending: bool)
    requires Precedes(a, b, ascending) && Precedes(b, c, ascending)
    ensures Precedes(a, c, ascending)
  {
    if a.Present? && b.Present? && c.Present? {
      if ascending { ValueLeTransitive(a.v, b.v, c.v); } else { ValueLeTransitive(c.v, b.v, a.v); }
    }
  }

  lemma PrecedesAntisymmetric(a: Cell, b: Cell, ascending: bool)
    requires Precedes(a, b, ascending) && Precedes(b, a, ascending)
    ensures a == b
  {
    if a.Present? && b.Present? && a.v.Text? && b.v.Text? {
      TextLeAntisymmetric(a.v.s, b.v.s);
    }
  }
}
