/**
 * The callbacks of the table's "name" and "age" columns: the two `onFilter`
 * predicates and the numeric age `sorter`. Text is `seq<char>`; lower-casing
 * is the ASCII letter mapping, and an age's `toString()` is its decimal text
 * with a leading '-' for negative values and no leading zero, which is what
 * JavaScript produces for whole numbers of magnitude at most 2^53.
 */
module Columns {
  import opened Records

  // ---------------------------------------------------------------------------
  // Substring search: `String.prototype.includes`
  // ---------------------------------------------------------------------------

  /** `sub` occurs in `s` starting at index `i`. */
  predicate OccursAt(s: string, sub: string, i: int)
  {
    0 <= i && i + |sub| <= |s| && s[i..i + |sub|] == sub
  }

  /** Past a non-matching first position, `sub` occurs in `s` iff it occurs in `s[1..]`. */
  lemma IncludesStep(s: string, sub: string)
    requires |sub| <= |s| && s[..|sub|] != sub
    ensures (exists i :: OccursAt(s, sub, i)) <==> exists i :: OccursAt(s[1..], sub, i)
  {
    forall i
      ensures OccursAt(s, sub, i) <==> i >= 1 && OccursAt(s[1..], sub, i - 1)
    {
      if 1 <= i && i + |sub| <= |s| {
        assert s[1..][i - 1..i - 1 + |sub|] == s[i..i + |sub|];
      }
    }
    if i :| OccursAt(s[1..], sub, i) {
      assert OccursAt(s, sub, i + 1);
    }
  }

  /** `s.includes(sub)`: scanning the start positions from left to right finds `sub` iff it occurs in `s`. */
  function Includes(s: string, sub: string): (b: bool)
    ensures b <==> exists i :: OccursAt(s, sub, i)
    decreases |s|
  {
    if |sub| > |s| then false
    else if s[..|sub|] == sub then
      assert OccursAt(s, sub, 0);
      true
    else
      IncludesStep(s, sub);
      Includes(s[1..], sub)
  }

  // ---------------------------------------------------------------------------
  // ASCII lower-casing: `toLowerCase()` restricted to ASCII letters
  // ---------------------------------------------------------------------------

  function LowerChar(c: char): char
  {
    if 'A' <= c <= 'Z' then (c as int + 32) as char else c
  }

  function UpperChar(c: char): char
  {
    if 'a' <= c <= 'z' then (c as int - 32) as char else c
  }

  function Lower(s: string): (r: string)
    ensures |r| == |s|
    ensures forall i :: 0 <= i < |s| ==> r[i] == LowerChar(s[i])
  {
    if s == [] then [] else [LowerChar(s[0])] + Lower(s[1..])
  }

  function Upper(s: string): (r: string)
    ensures |r| == |s|
    ensures forall i :: 0 <= i < |s| ==> r[i] == UpperChar(s[i])
  {
    if s == [] then [] else [UpperChar(s[0])] + Upper(s[1..])
  }

  /** Lower-casing twice is lower-casing once. */
  lemma LowerIdempotent(s: string)
    ensures Lower(Lower(s)) == Lower(s)
  {
  }

  /** Upper-casing first makes no difference to the lower-cased text. */
  lemma LowerOfUpper(s: string)
    ensures Lower(Upper(s)) == Lower(s)
  {
  }

  // ---------------------------------------------------------------------------
  // Name column
  // ---------------------------------------------------------------------------

  /**
   * `record.name.toLowerCase().includes(value.toLowerCase())`: the row passes
   * iff the lower-cased query occurs in the lower-cased name.
   */
  function NameFilter(query: string, record: Rec): (b: bool)
    ensures b <==> exists i :: OccursAt(Lower(record.name), Lower(query), i)
  {
    var found := Includes(Lower(record.name), Lower(query));
    assert found ==> exists i :: OccursAt(Lower(record.name), Lower(query), i) by {
      if found {
        var i :| OccursAt(Lower(record.name), Lower(query), i);
      }
    }
    found
  }

  /** Lower- or upper-casing the query does not change which rows it selects. */
  lemma NameFilterIgnoresCase(query: string, record: Rec)
    ensures NameFilter(Lower(query), record) == NameFilter(query, record)
    ensures NameFilter(Upper(query), record) == NameFilter(query, record)
  {
    LowerIdempotent(query);
    LowerOfUpper(query);
  }

  /** Two queries that differ only in letter case select the same rows. */
  lemma NameFilterCaseInsensitive(q1: string, q2: string, record: Rec)
    requires |q1| == |q2|
    requires forall i :: 0 <= i < |q1| ==> LowerChar(q1[i]) == LowerChar(q2[i])
    ensures NameFilter(q1, record) == NameFilter(q2, record)
  {
    assert Lower(q1) == Lower(q2);
  }

  /** The cleared (empty) query accepts every row. */
  lemma NameFilterEmpty(record: Rec)
    ensures NameFilter("", record)
  {
  }

  /** The query "jo" picks out "John" but not "Jane". */
  lemma NameFilterExample(k1: Key, k2: Key)
    ensures NameFilter("jo", Rec(k1, "John", 30))
    ensures !NameFilter("jo", Rec(k2, "Jane", 25))
  {
    assert Lower("jo") == "jo";
    assert Lower("John") == "john";
    assert Lower("Jane") == "jane";
    assert "john"[..2] == "jo";
    assert "jane"[..2] != "jo" by { assert "jane"[1] == 'a'; }
    assert "ane"[..2] != "jo";
    assert "ne"[..2] != "jo";
  }

  // ---------------------------------------------------------------------------
  // Decimal text: `Number.prototype.toString()` on an integer
  // ---------------------------------------------------------------------------

  predicate IsDigit(c: char)
  {
    '0' <= c <= '9'
  }

  function DigitChar(d: nat): (c: char)
    requires d < 10
    ensures IsDigit(c)
  {
    ('0' as int + d) as char
  }

  /** The decimal digits of `n`, most significant first, with no leading zero. */
  function NatText(n: nat): (s: string)
    ensures |s| >= 1
    ensures forall i :: 0 <= i < |s| ==> IsDigit(s[i])
    ensures s[0] == '0' ==> n == 0
    decreases n
  {
    if n < 10 then [DigitChar(n)] else NatText(n / 10) + [DigitChar(n % 10)]
  }

  /** The number a string of decimal digits denotes. */
  function DigitsValue(s: string): nat
    requires forall i :: 0 <= i < |s| ==> IsDigit(s[i])
  {
    if s == [] then 0
    else
      assert IsDigit(s[|s| - 1]);
      DigitsValue(s[..|s| - 1]) * 10 + (s[|s| - 1] as int - '0' as int)
  }

  /** Reading the decimal text of `n` back gives `n`. */
  lemma {:induction false} NatTextRoundTrip(n: nat)
    ensures DigitsValue(NatText(n)) == n
    decreases n
  {
    if n >= 10 {
      NatTextRoundTrip(n / 10);
      var s := NatText(n);
      assert s[..|s| - 1] == NatText(n / 10);
    }
  }

  /**
   * The decimal text of an integer: an optional '-' followed by digits that
   * read back as the magnitude, with no leading zero. This is `n.toString()`
   * for |n| <= 2^53.
   */
  function IntText(n: int): (s: string)
    ensures |s| >= 1
    ensures s[0] == '-' <==> n < 0
    ensures n < 0 ==> |s| >= 2
    ensures forall i :: (if n < 0 then 1 else 0) <= i < |s| ==> IsDigit(s[i])
    ensures n < 0 ==> DigitsValue(s[1..]) == -n
    ensures n >= 0 ==> DigitsValue(s) == n
    ensures n >= 0 && s[0] == '0' ==> n == 0
    ensures n < 0 ==> s[1] != '0'
    ensures n == 0 ==> s == "0"
  {
    if n < 0 then
      NatTextRoundTrip(-n);
      assert ("-" + NatText(-n))[1..] == NatText(-n);
      "-" + NatText(-n)
    else
      NatTextRoundTrip(n);
      NatText(n)
  }

  /** Different integers have different decimal texts. */
  lemma IntTextInjective(a: int, b: int)
    requires IntText(a) == IntText(b)
    ensures a == b
  {
    if a < 0 {
      assert IntText(a)[1..] == IntText(b)[1..];
    }
  }

  // ---------------------------------------------------------------------------
  // Age column
  // ---------------------------------------------------------------------------

  /** `record.age.toString().includes(value)`: the row passes iff the query occurs in the age's decimal text. */
  function AgeFilter(query: string, record: Rec): (b: bool)
    ensures b <==> exists i :: OccursAt(IntText(record.age), query, i)
  {
    Includes(IntText(record.age), query)
  }

  /** A row always passes the filter for its own age, and the empty query passes every row. */
  lemma AgeFilterOwnAge(record: Rec)
    ensures AgeFilter(IntText(record.age), record)
    ensures AgeFilter("", record)
  {
    assert OccursAt(IntText(record.age), IntText(record.age), 0);
    assert OccursAt(IntText(record.age), "", 0);
  }

  /** The filter is containment, not equality: "3" selects ages 30 and 13 but not 25. */
  lemma AgeFilterExample(k: Key, name: string)
    ensures AgeFilter("3", Rec(k, name, 30))
    ensures AgeFilter("3", Rec(k, name, 13))
    ensures !AgeFilter("3", Rec(k, name, 25))
  {
    assert NatText(3) == "3";
    assert NatText(30) == "30";
    assert NatText(1) == "1";
    assert NatText(13) == "13";
    assert NatText(2) == "2";
    assert NatText(25) == "25";
    assert "30"[..1] == "3";
    assert "13"[1..][..1] == "3";
    assert "25"[..1] != "3";
    assert "25"[1..][..1] != "3";
  }

  /** `(a, b) => a.age - b.age`: negative, zero or positive as `a.age` is below, equal to or above `b.age`. */
  function AgeCompare(a: Rec, b: Rec): (r: int)
    ensures r < 0 <==> a.age < b.age
    ensures r == 0 <==> a.age == b.age
    ensures r > 0 <==> a.age > b.age
  {
    a.age - b.age
  }

  /** The age comparator is a total preorder: antisymmetric in sign and transitive. */
  lemma AgeCompareOrder(a: Rec, b: Rec, c: Rec)
    ensures AgeCompare(a, b) == -AgeCompare(b, a)
    ensures AgeCompare(a, b) <= 0 && AgeCompare(b, c) <= 0 ==> AgeCompare(a, c) <= 0
  {
  }
}
