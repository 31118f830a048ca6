/** `format` of `os/command/wget.go`: a byte count with a comma every three digits. */
module DigitGroups {
  import opened GoBytes
  import opened Numerals

  /** The byte q places from the right end of the output for digits `s`: every fourth place is a
      comma, except that a comma that would lead the number is never written and stays NUL. */
  function GroupedFromRight(s: Str, q: nat): byte
    requires q < |s| + |s| / 3
  {
    if q % 4 != 3 then s[|s| - 1 - (q - q / 4)]
    else if q == |s| + |s| / 3 - 1 then NUL
    else COMMA
  }

  function Grouped(s: Str): (r: Str)
    ensures |r| == |s| + |s| / 3
  {
    var len := |s| + |s| / 3;
    seq(len, i requires 0 <= i < len => GroupedFromRight(s, len - 1 - i))
  }

  /** The places after `groups` full groups of three digits and their commas. */
  lemma Places(s: Str, groups: nat, k: nat)
    requires k < 3 && 3 * groups + k < |s|
    ensures 4 * groups + k < |s| + |s| / 3
    ensures GroupedFromRight(s, 4 * groups + k) == s[|s| - 1 - (3 * groups + k)]
    ensures k == 2 && 3 * groups + k + 1 < |s| ==>
              4 * groups + 3 < |s| + |s| / 3 && GroupedFromRight(s, 4 * groups + 3) == COMMA
    ensures 3 * groups + k + 1 == |s| ==>
              |s| + |s| / 3 == 4 * groups + k + (if k == 2 then 2 else 1)
    ensures k == 2 && 3 * groups + k + 1 == |s| ==> GroupedFromRight(s, 4 * groups + 3) == NUL
  {
    assert (4 * groups + k) / 4 == groups && (4 * groups + k) % 4 == k;
    assert (4 * groups + 3) % 4 == 3;
  }

  /** Fills the output from its right end; `k` digits have been written since the last comma. */
  method Format(n: nat) returns (r: Str)
    ensures r == Grouped(Itoa(n))
  {
    hide Itoa, Numeral, GroupedFromRight;
    var input := Itoa(n);
    var out := new byte[|input| + |input| / 3](_ => 0);
    var len := out.Length;
    var i, j, k := |input| - 1, len - 1, 0;
    ghost var groups := 0;
    while true
      invariant 0 <= i < |input| && 0 <= k < 3 && groups >= 0
      invariant i == |input| - 1 - (3 * groups + k)
      invariant j == len - 1 - (4 * groups + k) && 0 <= j
      invariant forall m :: j < m < len ==> out[m] == GroupedFromRight(input, len - 1 - m)
      invariant forall m :: 0 <= m <= j ==> out[m] == NUL
      decreases i
    {
      Places(input, groups, k);
      out[j] := input[i];
      if i == 0 {
        assert forall m :: 0 <= m < len ==> out[m] == Grouped(input)[m];
        return out[..];
      }
      k := k + 1;
      if k == 3 {
        j, k := j - 1, 0;
        out[j] := COMMA;
        groups := groups + 1;
      }
      i, j := i - 1, j - 1;
      Places(input, groups, k);
    }
  }

  /** The digits alone: commas and NULs deleted. */
  function Ungrouped(s: Str): Str {
    if s == [] then []
    else Ungrouped(s[..|s| - 1]) + (if s[|s| - 1] == COMMA || s[|s| - 1] == NUL then [] else [s[|s| - 1]])
  }

  /** The digits to the left of the last q places of the output. */
  function DigitsBefore(s: Str, q: nat): int { |s| - (q - q / 4) }

  /** The first m bytes of the output hold the first digits, in order. */
  lemma {:induction false} UngroupedPrefix(s: Str, m: nat)
    requires forall c <- s :: IsDigit(c, 10)
    requires m <= |s| + |s| / 3
    ensures 0 <= DigitsBefore(s, |s| + |s| / 3 - m) <= |s|
    ensures Ungrouped(Grouped(s)[..m]) == s[..DigitsBefore(s, |s| + |s| / 3 - m)]
  {
    var g := Grouped(s);
    var q := |g| - m;
    if m == 0 {
      assert DigitsBefore(s, q) == 0;
    } else {
      assert g[..m][..m - 1] == g[..m - 1] && g[m - 1] == GroupedFromRight(s, q);
      hide Ungrouped, Grouped, DigitsBefore, GroupedFromRight, IsDigit;
      UngroupedPrefix(s, m - 1);
      UngroupedSnoc(g[..m]);
      DigitKept(s, q);
    }
  }

  lemma UngroupedSnoc(r: Str)
    requires r != []
    ensures var last := r[|r| - 1];
            Ungrouped(r) == Ungrouped(r[..|r| - 1]) + if last == COMMA || last == NUL then [] else [last]
  {
  }

  /** The q-th place from the right is the next digit, or none. */
  lemma DigitKept(s: Str, q: nat)
    requires forall c <- s :: IsDigit(c, 10)
    requires q < |s| + |s| / 3
    ensures var b, d, d' := GroupedFromRight(s, q), DigitsBefore(s, q), DigitsBefore(s, q + 1);
            0 <= d' <= d <= |s| && s[..d] == s[..d'] + if b == COMMA || b == NUL then [] else [b]
  {
    var d := |s| - (q - q / 4);
    if q % 4 != 3 {
      assert IsDigit(s[d - 1], 10);
      assert s[..d] == s[..d - 1] + [s[d - 1]];
      assert (q + 1) / 4 == q / 4;
    } else {
      assert (q + 1) / 4 == q / 4 + 1;
    }
  }

  lemma NulOnlyLeads(s: Str, q: nat)
    requires forall c <- s :: IsDigit(c, 10)
    requires q < |s| + |s| / 3
    ensures GroupedFromRight(s, q) == NUL <==> q == |s| + |s| / 3 - 1 && |s| % 3 == 0
  {
    if q % 4 != 3 {
      assert IsDigit(s[|s| - 1 - (q - q / 4)], 10);
    }
  }

  /** Deleting the commas and the one leading NUL gives the decimal digits back; there is a leading
      NUL exactly when the digit count is a multiple of three, and no other NUL. */
  lemma GroupingReadsBack(n: nat)
    ensures Ungrouped(Grouped(Itoa(n))) == Itoa(n)
    ensures Grouped(Itoa(n))[0] == NUL <==> |Itoa(n)| % 3 == 0
    ensures NUL !in Grouped(Itoa(n))[1..]
  {
    hide Itoa, Numeral, GroupedFromRight, Ungrouped;
    var s := Itoa(n);
    var g := Grouped(s);
    UngroupedPrefix(s, |g|);
    assert g[..|g|] == g && s[..|s|] == s && DigitsBefore(s, 0) == |s|;
    forall i | 0 < i < |g|
      ensures g[i] != NUL
    {
      NulOnlyLeads(s, |g| - 1 - i);
    }
    NulOnlyLeads(s, |g| - 1);
  }
}
