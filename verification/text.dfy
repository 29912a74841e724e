/** String operations the controllers take from PHP's standard library:
    `implode`, `strpos`, `stripos` and single-character `str_replace`. */
module Text {

  /** The parts separated by `sep`, as PHP's `implode(sep, parts)`. */
  function Join(sep: string, parts: seq<string>): string
  {
    if |parts| == 0 then ""
    else if |parts| == 1 then parts[0]
    else parts[0] + sep + Join(sep, parts[1..])
  }

  /** `pat` occurs in `s` starting at index `i`. */
  predicate OccursAt(s: string, pat: string, i: int)
  {
    0 <= i && i + |pat| <= |s| && s[i..i + |pat|] == pat
  }

  /** `pat` occurs nowhere in `s`. */
  ghost predicate Free(s: string, pat: string)
  {
    forall i :: !OccursAt(s, pat, i)
  }

  /** `strpos(s, pat) !== false`: some occurrence of `pat` in `s`. */
  function Contains(s: string, pat: string): (r: bool)
    decreases |s|
    ensures r <==> exists i :: OccursAt(s, pat, i)
  {
    if |s| < |pat| then false
    else if s[..|pat|] == pat then
      assert OccursAt(s, pat, 0);
      true
    else
      var r := Contains(s[1..], pat);
      if r then
        var i :| OccursAt(s[1..], pat, i);
        assert OccursAt(s, pat, i + 1);
        true
      else
        assert forall i | OccursAt(s, pat, i) :: i > 0 && OccursAt(s[1..], pat, i - 1);
        false
  }

  /** ASCII upper-case letters to lower case; every other character unchanged. */
  function LowerChar(c: char): char
  {
    if 'A' <= c <= 'Z' then (c as int - 'A' as int + 'a' as int) as char else c
  }

  function Lower(s: string): (r: string)
    ensures |r| == |s|
    ensures forall i :: 0 <= i < |s| ==> r[i] == LowerChar(s[i])
  {
    seq(|s|, i requires 0 <= i < |s| => LowerChar(s[i]))
  }

  /** `stripos(s, pat) !== false`: PHP lower-cases both strings (ASCII only) and searches. */
  function ContainsIgnoreCase(s: string, pat: string): bool
  {
    Contains(Lower(s), Lower(pat))
  }

  /** `pat` matches `s` at `i` when the characters agree after lower-casing. */
  ghost predicate MatchesIgnoreCase(s: string, pat: string, i: int)
  {
    0 <= i && i + |pat| <= |s| && forall k :: 0 <= k < |pat| ==> LowerChar(s[i + k]) == LowerChar(pat[k])
  }

  /** `stripos` finds `pat` exactly when it matches somewhere, character by character. */
  lemma IgnoreCaseIff(s: string, pat: string)
    ensures ContainsIgnoreCase(s, pat) <==> exists i :: MatchesIgnoreCase(s, pat, i)
  {
    var ls, lp := Lower(s), Lower(pat);
    forall i ensures OccursAt(ls, lp, i) <==> MatchesIgnoreCase(s, pat, i) {
      if 0 <= i && i + |pat| <= |s| {
        if OccursAt(ls, lp, i) {
          forall k | 0 <= k < |pat| ensures LowerChar(s[i + k]) == LowerChar(pat[k]) {
            assert ls[i..i + |lp|][k] == ls[i + k];
          }
        }
        if MatchesIgnoreCase(s, pat, i) {
          assert ls[i..i + |lp|] == lp;
        }
      }
    }
  }

  /** `str_replace(pat, [c], s)` for a non-empty pattern: every occurrence of `pat`,
      scanned left to right without overlap, replaced by the one character `c`. */
  function ReplaceAll(s: string, pat: string, c: char): (r: string)
    requires |pat| > 0
    decreases |s|
    ensures |r| <= |s|
  {
    if |s| < |pat| then s
    else if s[..|pat|] == pat then [c] + ReplaceAll(s[|pat|..], pat, c)
    else [s[0]] + ReplaceAll(s[1..], pat, c)
  }

  /** Occurrences in a suffix are occurrences in the whole string, shifted by `k`. */
  lemma OccursInSuffix(s: string, pat: string, k: nat, i: int)
    requires k <= |s|
    ensures OccursAt(s[k..], pat, i) <==> 0 <= i && OccursAt(s, pat, i + k)
  {
    if 0 <= i && i + |pat| <= |s| - k {
      assert s[k..][i..i + |pat|] == s[i + k..i + k + |pat|];
    }
  }

  /** Removing a prefix keeps a string free of `pat`. */
  lemma FreeSuffix(s: string, pat: string, k: nat)
    requires k <= |s| && Free(s, pat)
    ensures Free(s[k..], pat)
  {
    forall i ensures !OccursAt(s[k..], pat, i) {
      OccursInSuffix(s, pat, k, i);
    }
  }

  /** An occurrence at index 0 is a prefix equal to `pat`, so it contains only characters of `pat`. */
  lemma NotAtStart(r: string, pat: string, c: char)
    requires |pat| > 0 && c !in pat
    requires |r| < |pat| || c in r[..|pat|]
    ensures !OccursAt(r, pat, 0)
  {
    if |pat| <= |r| {
      var k :| 0 <= k < |pat| && r[..|pat|][k] == c;
      assert pat[k] == c ==> c in pat;
    }
  }

  /** A string in which `pat` does not occur is left unchanged. */
  lemma {:induction false} ReplaceAbsent(s: string, pat: string, c: char)
    requires |pat| > 0
    requires Free(s, pat)
    ensures ReplaceAll(s, pat, c) == s
    decreases |s|
  {
    if |s| >= |pat| {
      assert !OccursAt(s, pat, 0);
      FreeSuffix(s, pat, 1);
      ReplaceAbsent(s[1..], pat, c);
      assert s == [s[0]] + s[1..];
    }
  }

  /** The first `k` characters of a replacement result are either the first `k`
      characters of the input, unchanged, or include an inserted `c`. */
  lemma {:induction false} ReplacePrefix(s: string, pat: string, c: char, k: nat)
    requires |pat| > 0
    requires k <= |ReplaceAll(s, pat, c)|
    ensures (k <= |s| && ReplaceAll(s, pat, c)[..k] == s[..k]) || c in ReplaceAll(s, pat, c)[..k]
    decreases |s|
  {
    var r := ReplaceAll(s, pat, c);
    if |s| < |pat| || k == 0 {
    } else if s[..|pat|] == pat {
      assert r[0] == c;
      assert r[..k][0] == c;
    } else {
      ReplacePrefix(s[1..], pat, c, k - 1);
      var t := ReplaceAll(s[1..], pat, c);
      assert r[..k] == [s[0]] + t[..k - 1];
      if k - 1 <= |s[1..]| && t[..k - 1] == s[1..][..k - 1] {
        assert s[..k] == [s[0]] + s[1..][..k - 1];
      } else {
        assert c in t[..k - 1];
      }
    }
  }

  /** If `q` avoids `c`, an occurrence of `q` at the start of `ReplaceAll(s, pat, c)`
      is already an occurrence at the start of `s`. */
  lemma StartOccurrence(s: string, pat: string, c: char, q: string)
    requires |pat| > 0 && |q| > 0 && c !in q
    requires OccursAt(ReplaceAll(s, pat, c), q, 0)
    ensures OccursAt(s, q, 0)
  {
    var r := ReplaceAll(s, pat, c);
    ReplacePrefix(s, pat, c, |q|);
    if c in r[..|q|] {
      NotAtStart(r, q, c);
    }
  }

  /** Replacing `pat` never creates an occurrence of a pattern `q` that does not
      contain the inserted character. */
  lemma {:induction false} ReplaceKeepsFree(s: string, pat: string, c: char, q: string)
    requires |pat| > 0 && |q| > 0 && c !in q
    requires Free(s, q)
    ensures Free(ReplaceAll(s, pat, c), q)
    decreases |s|
  {
    var r := ReplaceAll(s, pat, c);
    if |s| < |pat| {
    } else {
      var k := if s[..|pat|] == pat then |pat| else 1;
      FreeSuffix(s, q, k);
      ReplaceKeepsFree(s[k..], pat, c, q);
      var t := ReplaceAll(s[k..], pat, c);
      assert r == [r[0]] + t;
      assert r[1..] == t;
      forall i ensures !OccursAt(r, q, i) {
        if i == 0 {
          if OccursAt(r, q, 0) {
            StartOccurrence(s, pat, c, q);
          }
        } else {
          OccursInSuffix(r, q, 1, i - 1);
        }
      }
    }
  }

  /** After the replacement `pat` no longer occurs, because `c` is not part of it. */
  lemma {:induction false} ReplaceRemoves(s: string, pat: string, c: char)
    requires |pat| > 0 && c !in pat
    ensures Free(ReplaceAll(s, pat, c), pat)
    decreases |s|
  {
    var r := ReplaceAll(s, pat, c);
    if |s| < |pat| {
    } else {
      var matched := s[..|pat|] == pat;
      var k := if matched then |pat| else 1;
      ReplaceRemoves(s[k..], pat, c);
      var t := ReplaceAll(s[k..], pat, c);
      assert r == [r[0]] + t;
      assert r[1..] == t;
      forall i ensures !OccursAt(r, pat, i) {
        if i == 0 {
          if matched {
            if |pat| <= |r| {
              assert r[..|pat|][0] == c;
            }
            NotAtStart(r, pat, c);
          } else {
            ReplacePrefix(s, pat, c, if |pat| <= |r| then |pat| else 0);
            if |pat| <= |r| && c in r[..|pat|] {
              NotAtStart(r, pat, c);
            }
          }
        } else {
          OccursInSuffix(r, pat, 1, i - 1);
        }
      }
    }
  }

  /** Where part `i` starts in `Join(sep, parts)`: the lengths of the parts before it,
      each followed by one separator. */
  function PartStart(sep: string, parts: seq<string>, i: nat): nat
    requires i < |parts|
  {
    if i == 0 then 0 else |parts[0]| + |sep| + PartStart(sep, parts[1..], i - 1)
  }

  /** An occurrence inside the right operand of a concatenation. */
  lemma OccursAfter(a: string, b: string, pat: string, k: int)
    requires OccursAt(b, pat, k)
    ensures OccursAt(a + b, pat, |a| + k)
  {
    assert (a + b)[|a| + k..|a| + k + |pat|] == b[k..k + |pat|];
  }

  /** An occurrence inside the left operand of a concatenation. */
  lemma OccursBefore(a: string, b: string, pat: string, k: int)
    requires OccursAt(a, pat, k)
    ensures OccursAt(a + b, pat, k)
  {
    assert (a + b)[k..k + |pat|] == a[k..k + |pat|];
  }

  /** Every part occurs in the joined string, at `PartStart`. */
  lemma {:induction false} JoinHasPart(sep: string, parts: seq<string>, i: nat)
    requires i < |parts|
    ensures OccursAt(Join(sep, parts), parts[i], PartStart(sep, parts, i))
    decreases |parts|
  {
    if |parts| == 1 {
      assert Join(sep, parts)[0..|parts[0]|] == parts[0];
    } else if i == 0 {
      OccursBefore(parts[0], sep + Join(sep, parts[1..]), parts[0], 0);
      assert Join(sep, parts) == parts[0] + (sep + Join(sep, parts[1..]));
    } else {
      JoinHasPart(sep, parts[1..], i - 1);
      OccursAfter(parts[0] + sep, Join(sep, parts[1..]), parts[i], PartStart(sep, parts[1..], i - 1));
    }
  }

  /** Parts appear in their order, each after the previous one and its separator. */
  lemma {:induction false} PartStartsIncrease(sep: string, parts: seq<string>, i: nat)
    requires i + 1 < |parts|
    ensures PartStart(sep, parts, i + 1) == PartStart(sep, parts, i) + |parts[i]| + |sep|
    decreases i
  {
    if i > 0 {
      PartStartsIncrease(sep, parts[1..], i - 1);
    }
  }

  /** Between each part and the next stands the separator itself. */
  lemma {:induction false} JoinHasSep(sep: string, parts: seq<string>, i: nat)
    requires i + 1 < |parts|
    ensures OccursAt(Join(sep, parts), sep, PartStart(sep, parts, i) + |parts[i]|)
    decreases i
  {
    var rest := parts[1..];
    assert Join(sep, parts) == (parts[0] + sep) + Join(sep, rest);
    if i == 0 {
      assert OccursAt(sep, sep, 0);
      OccursAfter(parts[0], sep, sep, 0);
      OccursBefore(parts[0] + sep, Join(sep, rest), sep, |parts[0]|);
    } else {
      JoinHasSep(sep, rest, i - 1);
      assert rest[i - 1] == parts[i];
      OccursAfter(parts[0] + sep, Join(sep, rest), sep, PartStart(sep, rest, i - 1) + |parts[i]|);
    }
  }

  /** The joined string ends with its last part: nothing follows it. */
  /** `implode` of no parts is the empty string. */
  lemma JoinEmpty(sep: string)
    ensures Join(sep, []) == ""
  {
  }

  lemma {:induction false} JoinLength(sep: string, parts: seq<string>)
    requires |parts| > 0
    ensures |Join(sep, parts)| == PartStart(sep, parts, |parts| - 1) + |parts[|parts| - 1]|
    decreases |parts|
  {
    if |parts| > 1 {
      JoinLength(sep, parts[1..]);
    }
  }

  /** A pattern with a character the string lacks does not occur in it. */
  lemma MissingChar(s: string, pat: string, c: char)
    requires c in pat && c !in s
    ensures !Contains(s, pat)
  {
    var k :| 0 <= k < |pat| && pat[k] == c;
    forall i ensures !OccursAt(s, pat, i) {
      if 0 <= i && i + |pat| <= |s| {
        assert s[i..i + |pat|][k] == s[i + k];
        assert s[i + k] in s;
      }
    }
  }

  /** A string that begins with the pattern contains it. */
  lemma StartsWith(s: string, pat: string)
    requires |pat| <= |s| && s[..|pat|] == pat
    ensures Contains(s, pat)
  {
    assert OccursAt(s, pat, 0);
  }
}
