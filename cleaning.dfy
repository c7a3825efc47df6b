/**
 * Cleaning and normalisation of the loaded table (lines 183-214 of
 * percentage_nations_etf.py): rows missing the weight or the location are
 * dropped, weight text loses every '%' and has ',' turned into '.', rows
 * whose weight then does not parse are dropped, and the location is
 * stripped and passed through a fixed country-name mapping.
 */
module Cleaning {
  import opened Wrappers
  import opened Text
  import opened Decimal
  import opened Frame

  /** `.str.replace('%', '').str.replace(',', '.')`. */
  function WeightText(s: string): (r: string)
    ensures '%' !in r && ',' !in r
    ensures |r| == |s| - Count(s, '%')
  {
    ReplaceChar(RemoveChar(s, '%'), ',', '.')
  }

  /** The numeric weight of one cell's text, or None where pandas coerces to NaN. */
  function ParseWeight(s: string): Option<real> {
    ParseNumber(WeightText(s))
  }

  /** The fixed country-name table of the script, as (name, canonical name) pairs in its order. */
  const CountryMapping: seq<(string, string)> := [
    ("Korea (South)", "South Korea"),
    ("China", "China"),
    ("Taiwan", "Taiwan"),
    ("India", "India"),
    ("Germany", "Germany"),
    ("South Africa", "South Africa"),
    ("Saudi Arabia", "Saudi Arabia"),
    ("Brazil", "Brazil"),
    ("United States", "United States"),
    ("Japan", "Japan"),
    ("United Kingdom", "United Kingdom")
  ]

  /** Dictionary lookup in a pair list (the keys of the script's table are distinct). */
  function Lookup(table: seq<(string, string)>, key: string): Option<string> {
    if table == [] then None
    else if table[0].0 == key then Some(table[0].1)
    else Lookup(table[1..], key)
  }

  /** In a table whose entries map names to themselves, looking a name up and falling back to it gives the name. */
  lemma {:induction false} LookupIdentity(table: seq<(string, string)>, key: string)
    requires forall i :: 0 <= i < |table| ==> table[i].0 == table[i].1
    ensures Lookup(table, key).GetOr(key) == key
  {
    if table != [] && table[0].0 != key {
      LookupIdentity(table[1..], key);
    }
  }

  /**
   * `.str.strip()` followed by `.map(CountryMapping).fillna(...)`: the only
   * name the table changes is "Korea (South)"; every other stripped name,
   * listed or not, comes back as it is.
   */
  function NormalizeCountry(location: string): (r: string)
    ensures var t := PyStrip(location);
      r == if t == "Korea (South)" then "South Korea" else t
  {
    var t := PyStrip(location);
    assert t != "Korea (South)" ==> Lookup(CountryMapping, t) == Lookup(CountryMapping[1..], t);
    LookupIdentity(CountryMapping[1..], t);
    Lookup(CountryMapping, t).GetOr(t)
  }

  /** Normalising a normalised name changes nothing. */
  lemma NormalizeCountryIdempotent(location: string)
    ensures NormalizeCountry(NormalizeCountry(location)) == NormalizeCountry(location)
  {
    var a := NormalizeCountry(location);
    StripIdempotent(location, IsPySpace);
    if PyStrip(location) == "Korea (South)" {
      CanonicalKoreaIsFixed(a);
    }
  }

  lemma CanonicalKoreaIsFixed(a: string)
    requires a == "South Korea"
    ensures PyStrip(a) == a && a != "Korea (South)"
  {
    assert !IsPySpace(a[0]) && !IsPySpace(a[|a| - 1]);
    NoEdgeSpaceStripFixed(a, IsPySpace);
    assert |a| != |"Korea (South)"|;
  }

  /**
   * One row after cleaning, as (normalised country, weight): None when its
   * weight or its location is NaN, or when its weight text does not parse.
   */
  function CleanRow(row: seq<Cell>, weightCol: nat, locationCol: nat): Option<(string, real)> {
    match (CellAt(row, weightCol), CellAt(row, locationCol))
    case (Some(w), Some(loc)) =>
      (match ParseWeight(w)
       case Some(x) => Some((NormalizeCountry(loc), x))
       case None => None)
    case _ => None
  }

  /**
   * The cleaned table: every survivor is the cleaned form of the input row
   * its index names, survivors keep their input order, and every row that
   * cleans successfully survives.
   */
  function CleanRows(rows: seq<seq<Cell>>, weightCol: nat, locationCol: nat): (hs: seq<Holding>)
    ensures |hs| <= |rows|
    ensures forall k :: 0 <= k < |hs| ==>
      hs[k].index < |rows| && CleanRow(rows[hs[k].index], weightCol, locationCol) == Some((hs[k].country, hs[k].weight))
    ensures forall k1, k2 :: 0 <= k1 < k2 < |hs| ==> hs[k1].index < hs[k2].index
    ensures forall i :: 0 <= i < |rows| && CleanRow(rows[i], weightCol, locationCol).Some? ==>
      exists k :: 0 <= k < |hs| && hs[k].index == i
  {
    KeepCleaned(rows, row => CleanRow(row, weightCol, locationCol))
  }

  /** Row-wise filter of the table through `clean`, in row order, keeping each survivor's row index. */
  function KeepCleaned(rows: seq<seq<Cell>>, clean: seq<Cell> -> Option<(string, real)>): (hs: seq<Holding>)
    ensures |hs| <= |rows|
    ensures forall k :: 0 <= k < |hs| ==>
      hs[k].index < |rows| && clean(rows[hs[k].index]) == Some((hs[k].country, hs[k].weight))
    ensures forall k1, k2 :: 0 <= k1 < k2 < |hs| ==> hs[k1].index < hs[k2].index
    ensures forall i :: 0 <= i < |rows| && clean(rows[i]).Some? ==> exists k :: 0 <= k < |hs| && hs[k].index == i
    decreases |rows|
  {
    if rows == [] then []
    else
      var n := |rows| - 1;
      var prev := KeepCleaned(rows[..n], clean);
      assert forall i :: 0 <= i < n ==> rows[..n][i] == rows[i];
      match clean(rows[n])
      case Some(v) =>
        var hs := prev + [Holding(n, v.0, v.1)];
        assert forall k :: 0 <= k < |prev| ==> hs[k] == prev[k];
        assert forall i :: 0 <= i < n && clean(rows[i]).Some? ==> exists k :: 0 <= k < |hs| && hs[k].index == i by {
          forall i | 0 <= i < n && clean(rows[i]).Some? ensures exists k :: 0 <= k < |hs| && hs[k].index == i {
            var k :| 0 <= k < |prev| && prev[k].index == i;
            assert hs[k].index == i;
          }
        }
        assert hs[|prev|].index == n;
        hs
      case None => prev
  }

  lemma RemoveCharNoop(s: string, c: char)
    requires c !in s
    ensures RemoveChar(s, c) == s
  {
    if s != [] {
      assert s[0] != c;
      assert c !in s[1..] by { assert forall x :: x in s[1..] ==> x in s; }
      RemoveCharNoop(s[1..], c);
    }
  }

  lemma {:induction false} RemoveCharAppend(a: string, b: string, c: char)
    ensures RemoveChar(a + b, c) == RemoveChar(a, c) + RemoveChar(b, c)
  {
    if a == [] {
      assert a + b == b;
    } else {
      assert (a + b)[0] == a[0] && (a + b)[1..] == a[1..] + b;
      RemoveCharAppend(a[1..], b, c);
    }
  }

  /** "12,5%"-style weights: a decimal comma and a trailing percent sign read as whole + fraction. */
  lemma WeightWithCommaAndPercent(s: string, whole: string, frac: string)
    requires AllDigits(whole) && AllDigits(frac) && |whole| + |frac| > 0
    requires s == whole + [','] + frac + ['%']
    ensures ParseWeight(s) == Some(DigitsValue(whole) as real + FractionValue(frac))
  {
    var t := whole + ['.'] + frac;
    CommaPercentText(s, whole, frac);
    assert !IsAsciiSpace(t[0]) && !IsAsciiSpace(t[|t| - 1]) by {
      if whole != [] { assert t[0] == whole[0]; }
      if frac != [] { assert t[|t| - 1] == frac[|frac| - 1]; }
    }
    NoEdgeSpaceStripFixed(t, IsAsciiSpace);
    ParsePointed(t, whole, frac);
  }

  /** The weight text "12,5%" reads as 12.5. */
  lemma TwelveAndAHalf(s: string)
    requires s == "12,5%"
    ensures ParseWeight(s) == Some(12.5)
  {
    var whole, frac := "12", "5";
    assert s == whole + [','] + frac + ['%'];
    TwelveAndAHalfValue(whole, frac);
    WeightWithCommaAndPercent(s, whole, frac);
  }

  lemma TwelveAndAHalfValue(whole: string, frac: string)
    requires whole == "12" && frac == "5"
    ensures AllDigits(whole) && AllDigits(frac)
    ensures DigitsValue(whole) as real + FractionValue(frac) == 12.5
  {
    var one := whole[..|whole| - 1];
    assert one == "1" && one[..|one| - 1] == [];
    assert DigitsValue(one) == 1;
    assert DigitsValue(whole) == 12;
    assert frac[..|frac| - 1] == [];
    assert DigitsValue(frac) == 5;
  }

  /** Cleaning "whole,frac%" gives "whole.frac". */
  lemma CommaPercentText(s: string, whole: string, frac: string)
    requires AllDigits(whole) && AllDigits(frac)
    requires s == whole + [','] + frac + ['%']
    ensures WeightText(s) == whole + ['.'] + frac
  {
    var commaText := whole + [','] + frac;
    PercentRemoved(s, commaText, whole, frac);
    var t := whole + ['.'] + frac;
    DigitsHaveNoComma(whole);
    DigitsHaveNoComma(frac);
    forall i | 0 <= i < |t| ensures WeightText(s)[i] == t[i] {
      if i < |whole| { assert commaText[i] == whole[i]; }
      else if i > |whole| { assert commaText[i] == frac[i - |whole| - 1]; }
    }
  }

  lemma PercentRemoved(s: string, commaText: string, whole: string, frac: string)
    requires AllDigits(whole) && AllDigits(frac)
    requires commaText == whole + [','] + frac && s == commaText + ['%']
    ensures RemoveChar(s, '%') == commaText
  {
    DigitsHaveNoPercent(whole);
    DigitsHaveNoPercent(frac);
    assert '%' !in commaText;
    RemoveCharAppend(commaText, ['%'], '%');
    RemoveCharNoop(commaText, '%');
  }

  lemma DigitsHaveNoPercent(s: string)
    requires AllDigits(s)
    ensures '%' !in s
  {
    forall j | 0 <= j < |s| ensures s[j] != '%' {
      assert IsDigit(s[j]);
    }
  }

  lemma DigitsHaveNoComma(s: string)
    requires AllDigits(s)
    ensures ',' !in s
  {
    forall j | 0 <= j < |s| ensures s[j] != ',' {
      assert IsDigit(s[j]);
    }
  }

  /** "40%"-style weights: a whole number with a trailing percent sign reads as that number. */
  lemma WeightWithPercent(s: string, digits: string)
    requires AllDigits(digits) && digits != []
    requires s == digits + ['%']
    ensures ParseWeight(s) == Some(DigitsValue(digits) as real)
  {
    DigitsHaveNoPercent(digits);
    DigitsHaveNoComma(digits);
    DigitsHaveNoPoint(digits);
    RemoveCharAppend(digits, ['%'], '%');
    RemoveCharNoop(digits, '%');
    assert WeightText(s) == digits;
    assert !IsAsciiSpace(digits[0]) && !IsAsciiSpace(digits[|digits| - 1]);
    NoEdgeSpaceStripFixed(digits, IsAsciiSpace);
    assert digits[0] != '-' && digits[0] != '+';
  }

  /**
   * A weight written with both a thousands separator and a decimal point,
   * or with two separators of any kind, has two points once ',' becomes '.',
   * so it does not parse and its row is dropped.
   */
  lemma TwoSeparatorsDropped(s: string)
    requires Count(s, ',') + Count(s, '.') >= 2
    ensures ParseWeight(s) == None
  {
    var t := WeightText(s);
    CountRemoveOther(s, '.', '%');
    CountRemoveOther(s, ',', '%');
    CountReplaced(RemoveChar(s, '%'), ',', '.');
    var b := Strip(t, IsAsciiSpace);
    CountStripped(t, IsAsciiSpace, '.');
    CountMagnitude(b);
    ParseDecimalDefinedIff(b);
  }

  /** "1,234.5" is one such weight. */
  lemma ThousandsSeparatorDropped()
    ensures ParseWeight("1,234.5") == None
  {
    var s := "1,234.5";
    assert Count(s, ',') == 1 && Count(s, '.') == 1;
    TwoSeparatorsDropped(s);
  }

  lemma {:induction false} CountRemoveOther(s: string, c: char, d: char)
    requires c != d
    ensures Count(RemoveChar(s, d), c) == Count(s, c)
  {
    if s != [] {
      CountRemoveOther(s[1..], c, d);
      if s[0] != d {
        assert ([s[0]] + RemoveChar(s[1..], d))[1..] == RemoveChar(s[1..], d);
      }
    }
  }

  lemma {:induction false} CountReplaced(s: string, from: char, to: char)
    requires from != to
    ensures Count(ReplaceChar(s, from, to), to) == Count(s, to) + Count(s, from)
  {
    if s != [] {
      CountReplaced(s[1..], from, to);
      assert ReplaceChar(s, from, to)[1..] == ReplaceChar(s[1..], from, to);
    }
  }

  lemma CountStripped(s: string, space: char -> bool, c: char)
    requires !space(c)
    ensures Count(Strip(s, space), c) == Count(s, c)
  {
    var lo, hi := StripIsSlice(s, space);
    assert s == s[..lo] + s[lo..hi] + s[hi..];
    CountAppend(s[..lo] + s[lo..hi], s[hi..], c);
    CountAppend(s[..lo], s[lo..hi], c);
    forall i | 0 <= i < lo ensures s[..lo][i] != c {
      assert space(s[i]);
    }
    forall i | 0 <= i < |s| - hi ensures s[hi..][i] != c {
      assert space(s[hi + i]);
    }
    CountZero(s[..lo], c);
    CountZero(s[hi..], c);
  }

  lemma CountMagnitude(s: string)
    ensures Count(Magnitude(s), '.') == Count(s, '.')
  {
  }
}
