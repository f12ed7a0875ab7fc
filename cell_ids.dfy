/** The DOM id of a grid cell: `fillTable` writes `${catIdx}-${clueIdx}`, and
    `handleClick` splits the id on "-" and uses the two pieces as array indices. */
module CellIds {
  import opened Wrappers

  const SEPARATOR: char := '-'

  predicate IsDigit(ch: char) {
    '0' <= ch <= '9'
  }

  function DigitChar(d: nat): (ch: char)
    requires d < 10
    ensures IsDigit(ch)
  {
    ('0' as int + d) as char
  }

  function DigitValue(ch: char): (d: nat)
    requires IsDigit(ch)
    ensures d < 10 && DigitChar(d) == ch
  {
    ch as int - '0' as int
  }

  predicate AllDigits(s: string) {
    forall i :: 0 <= i < |s| ==> IsDigit(s[i])
  }

  /** A canonical decimal numeral: what JavaScript prints for a natural number, and the
      only spelling of an index that an array property lookup accepts ("01" is not index 1). */
  predicate IsCanonical(s: string) {
    |s| >= 1 && AllDigits(s) && (s[0] == '0' ==> |s| == 1)
  }

  /** The decimal rendering of n, as the template literal produces it. */
  function Decimal(n: nat): (s: string)
    ensures IsCanonical(s)
    decreases n
  {
    if n < 10 then [DigitChar(n)] else Decimal(n / 10) + [DigitChar(n % 10)]
  }

  /** The number a string of digits denotes, read most significant digit first. */
  function Value(s: string): nat
    requires AllDigits(s)
  {
    if s == [] then 0 else Value(s[..|s| - 1]) * 10 + DigitValue(s[|s| - 1])
  }

  lemma {:induction false} ValueOfDecimal(n: nat)
    ensures Value(Decimal(n)) == n
    decreases n
  {
    var s := Decimal(n);
    if n < 10 {
      assert s[..|s| - 1] == [];
    } else {
      assert s[..|s| - 1] == Decimal(n / 10);
      ValueOfDecimal(n / 10);
    }
  }

  lemma {:induction false} LeadingDigitPositive(s: string)
    requires |s| >= 1 && AllDigits(s) && s[0] != '0'
    ensures Value(s) >= 1
    decreases |s|
  {
    if |s| > 1 {
      LeadingDigitPositive(s[..|s| - 1]);
    } else {
      assert s[..0] == [];
    }
  }

  lemma {:induction false} DecimalOfValue(s: string)
    requires IsCanonical(s)
    ensures Decimal(Value(s)) == s
    decreases |s|
  {
    var p := s[..|s| - 1];
    var d := DigitValue(s[|s| - 1]);
    if |s| == 1 {
      assert p == [];
      assert Decimal(Value(s)) == [s[0]];
    } else {
      assert p[0] == s[0];
      LeadingDigitPositive(p);
      DecimalOfValue(p);
      var v := Value(s);
      assert v == Value(p) * 10 + d;
      assert v / 10 == Value(p) && v % 10 == d;
      assert s == p + [s[|s| - 1]];
    }
  }

  /** How a piece of the id is used as an array index: a canonical numeral names an
      index, and that numeral is the rendering of the index it names; anything else
      names no element. */
  function ParseIndex(s: string): (r: Option<nat>)
    ensures r.Some? <==> IsCanonical(s)
    ensures r.Some? ==> Decimal(r.value) == s
  {
    if IsCanonical(s) then DecimalOfValue(s); Some(Value(s)) else None
  }

  /** Reading back a rendered index gives the index. */
  lemma ParseDecimal(n: nat)
    ensures ParseIndex(Decimal(n)) == Some(n)
  {
    ValueOfDecimal(n);
  }

  /** The pieces joined back with the separator between them. */
  function Join(parts: seq<string>, sep: char): string {
    if |parts| == 0 then []
    else if |parts| == 1 then parts[0]
    else parts[0] + [sep] + Join(parts[1..], sep)
  }

  /** `String.prototype.split` with a one-character separator: the maximal separator-free
      pieces, in order, so that joining them back gives the string. */
  function Split(s: string, sep: char): (parts: seq<string>)
    ensures |parts| >= 1
    ensures forall i :: 0 <= i < |parts| ==> sep !in parts[i]
    ensures Join(parts, sep) == s
    decreases |s|
  {
    if s == [] then [[]]
    else
      var rest := Split(s[1..], sep);
      if s[0] == sep then
        assert Join([[]] + rest, sep) == [sep] + Join(rest, sep);
        [[]] + rest
      else
        var parts := [[s[0]] + rest[0]] + rest[1..];
        assert parts[1..] == rest[1..];
        assert s == [s[0]] + s[1..];
        parts
  }

  lemma SplitWithoutSeparator(b: string, sep: char)
    requires sep !in b
    ensures Split(b, sep) == [b]
  {
  }

  lemma {:induction false} SplitAround(a: string, b: string, sep: char)
    requires sep !in a && sep !in b
    ensures Split(a + [sep] + b, sep) == [a, b]
    decreases |a|
  {
    var s := a + [sep] + b;
    if a == [] {
      assert s[1..] == b;
      SplitWithoutSeparator(b, sep);
    } else {
      assert s[1..] == a[1..] + [sep] + b;
      SplitAround(a[1..], b, sep);
      assert [a[0]] + a[1..] == a;
    }
  }

  /** Joining two or more pieces puts the first, the separator and the second in front. */
  lemma JoinFront(parts: seq<string>, sep: char)
    requires |parts| >= 2
    ensures Join(parts, sep) == parts[0] + [sep] + parts[1] +
      (if |parts| == 2 then [] else [sep] + Join(parts[2..], sep))
  {
    if |parts| > 2 {
      assert parts[1..][1..] == parts[2..];
    }
  }

  /** The two indices `handleClick` reads from an id: the first two pieces of the split,
      each of which must name an array element. An id that decodes to (catIdx, clueIdx)
      starts with "catIdx-clueIdx", and is exactly that when it has no further pieces:
      the destructuring ignores them. */
  function DecodeId(id: string): (cell: Option<(nat, nat)>)
    ensures cell.Some? ==>
      var prefix := Decimal(cell.value.0) + [SEPARATOR] + Decimal(cell.value.1);
      |prefix| <= |id| && id[..|prefix|] == prefix
    ensures cell.Some? && |Split(id, SEPARATOR)| == 2 ==>
      id == Decimal(cell.value.0) + [SEPARATOR] + Decimal(cell.value.1)
  {
    var parts := Split(id, SEPARATOR);
    if |parts| < 2 then None
    else
      match (ParseIndex(parts[0]), ParseIndex(parts[1]))
      case (Some(catIdx), Some(clueIdx)) =>
        JoinFront(parts, SEPARATOR);
        var prefix := parts[0] + [SEPARATOR] + parts[1];
        assert id == prefix + id[|prefix|..];
        Some((catIdx, clueIdx))
      case _ => None
  }

  lemma DecimalHasNoSeparator(n: nat)
    ensures SEPARATOR !in Decimal(n)
  {
  }

  /** The id `fillTable` gives the cell of category catIdx, clue clueIdx. Decoding it
      gives back exactly (catIdx, clueIdx), so distinct cells get distinct ids. */
  function CellId(catIdx: nat, clueIdx: nat): (id: string)
    ensures DecodeId(id) == Some((catIdx, clueIdx))
  {
    DecimalHasNoSeparator(catIdx);
    DecimalHasNoSeparator(clueIdx);
    SplitAround(Decimal(catIdx), Decimal(clueIdx), SEPARATOR);
    ParseDecimal(catIdx);
    ParseDecimal(clueIdx);
    Decimal(catIdx) + [SEPARATOR] + Decimal(clueIdx)
  }
}
