/** Grid coordinates and their textual form (src/coord.rs). */
module Coords {
  import opened Wrappers

  /** A cell position: column `x`, row `y`. Equality is structural, as derived in the source. */
  datatype Coord = Coord(x: nat, y: nat)

  /** The conversion `(x, y).into()`. */
  function FromPair(p: (nat, nat)): (c: Coord)
    ensures c.x == p.0 && c.y == p.1
  {
    Coord(p.0, p.1)
  }

  /** Two coordinates are equal exactly when both components agree. */
  lemma CoordEquality(a: Coord, b: Coord)
    ensures a == b <==> a.x == b.x && a.y == b.y
  {
  }

  /** `a` and `b` are one cardinal step apart. */
  predicate Adjacent(a: Coord, b: Coord)
  {
    || (a.x == b.x && (a.y + 1 == b.y || b.y + 1 == a.y))
    || (a.y == b.y && (a.x + 1 == b.x || b.x + 1 == a.x))
  }

  // ---------------------------------------------------------------------------
  // Decimal rendering of an unsigned integer (Rust's `{}` for `usize`)
  // ---------------------------------------------------------------------------

  predicate IsDigit(ch: char)
  {
    '0' <= ch <= '9'
  }

  predicate AllDigits(s: string)
  {
    forall i :: 0 <= i < |s| ==> IsDigit(s[i])
  }

  function DigitChar(d: nat): (ch: char)
    requires d < 10
    ensures IsDigit(ch)
  {
    (d + '0' as int) as char
  }

  function DigitValue(ch: char): (d: nat)
    requires IsDigit(ch)
    ensures d < 10 && DigitChar(d) == ch
  {
    ch as int - '0' as int
  }

  /** Shortest decimal form: no sign, no padding, no leading zero. */
  function Decimal(n: nat): (s: string)
    ensures |s| >= 1 && AllDigits(s)
    ensures s[0] == '0' ==> n == 0
    decreases n
  {
    if n < 10 then [DigitChar(n)] else Decimal(n / 10) + [DigitChar(n % 10)]
  }

  /** Reads a string of digits back as a number. */
  function ParseDecimal(s: string): nat
    requires AllDigits(s)
  {
    if |s| == 0 then 0 else ParseDecimal(s[..|s| - 1]) * 10 + DigitValue(s[|s| - 1])
  }

  /** The decimal form determines the number. */
  lemma {:induction false} DecimalRoundTrip(n: nat)
    ensures ParseDecimal(Decimal(n)) == n
    decreases n
  {
    if n >= 10 {
      var s := Decimal(n);
      assert s[..|s| - 1] == Decimal(n / 10);
      DecimalRoundTrip(n / 10);
    }
  }

  // ---------------------------------------------------------------------------
  // Display / Debug
  // ---------------------------------------------------------------------------

  /** The `Display` form `(x,y)`: parentheses, a comma, no spaces. */
  function Display(c: Coord): string
  {
    "(" + Decimal(c.x) + "," + Decimal(c.y) + ")"
  }

  /** The `Debug` form, written by its own formatter in the source. */
  function DebugForm(c: Coord): (s: string)
    ensures s == Display(c)
  {
    "(" + Decimal(c.x) + "," + Decimal(c.y) + ")"
  }

  /** Position of the first `ch` in `s`, if any. */
  function IndexOf(s: string, ch: char): (r: Option<nat>)
    ensures r.Some? ==> r.value < |s| && s[r.value] == ch && ch !in s[..r.value]
    ensures r.None? ==> ch !in s
  {
    if |s| == 0 then None
    else if s[0] == ch then Some(0)
    else
      match IndexOf(s[1..], ch)
      case None => None
      case Some(k) => assert s[..k + 1] == [s[0]] + s[1..][..k]; Some(k + 1)
  }

  /** Inverse of `Display`: reads `(x,y)` with both components in decimal. */
  function ParseCoord(s: string): Option<Coord>
  {
    if |s| < 2 || s[0] != '(' || s[|s| - 1] != ')' then None
    else
      var body := s[1..|s| - 1];
      match IndexOf(body, ',')
      case None => None
      case Some(k) =>
        var xs := body[..k];
        var ys := body[k + 1..];
        if |xs| == 0 || |ys| == 0 || !AllDigits(xs) || !AllDigits(ys) then None
        else Some(Coord(ParseDecimal(xs), ParseDecimal(ys)))
  }

  /** The first `ch` of `a + [ch] + b` is the one after `a` when `a` has none. */
  lemma IndexOfAfterPrefix(a: string, ch: char, b: string)
    requires ch !in a
    ensures IndexOf(a + [ch] + b, ch) == Some(|a|)
  {
    var s := a + [ch] + b;
    assert s[|a|] == ch;
    assert forall i :: 0 <= i < |a| ==> s[i] == a[i];
  }

  /** Reading the `Display` form gives the coordinate back. */
  lemma DisplayRoundTrip(c: Coord)
    ensures ParseCoord(Display(c)) == Some(c)
  {
    var dx, dy := Decimal(c.x), Decimal(c.y);
    var s := Display(c);
    var body := s[1..|s| - 1];
    assert body == dx + [','] + dy;
    assert ',' !in dx;
    IndexOfAfterPrefix(dx, ',', dy);
    assert body[..|dx|] == dx;
    assert body[|dx| + 1..] == dy;
    DecimalRoundTrip(c.x);
    DecimalRoundTrip(c.y);
  }

  /** Distinct coordinates render to distinct strings. */
  lemma DisplayInjective(a: Coord, b: Coord)
    ensures Display(a) == Display(b) ==> a == b
  {
    DisplayRoundTrip(a);
    DisplayRoundTrip(b);
  }
}
