/** Java strings as sequences of UTF-16 code units, and `String.compareTo`. */
module JavaStrings {

  /** One UTF-16 code unit (a Java `char`). */
  newtype Char16 = c: int | 0 <= c < 0x1_0000

  type JString = seq<Char16>

  /** `s.compareTo(t)`: the difference of the first pair of code units that
      differ, or else the difference of the lengths.  A result other than the
      length difference is a nonzero difference of two code units. */
  function CompareTo(s: JString, t: JString): (r: int)
    ensures r == |s| - |t| || (r != 0 && -0x1_0000 < r < 0x1_0000)
    decreases |s|
  {
    if |s| == 0 || |t| == 0 then |s| - |t|
    else if s[0] != t[0] then s[0] as int - t[0] as int
    else CompareTo(s[1..], t[1..])
  }

  /** Reference definition: `s` comes strictly after `t` in lexicographic order,
      either at a first differing code unit or because `t` is a proper prefix. */
  ghost predicate LexGreater(s: JString, t: JString) {
    || (exists k :: 0 <= k < |s| && k < |t| && s[..k] == t[..k] && s[k] > t[k])
    || (|t| < |s| && s[..|t|] == t)
  }

  /** With equal first code units, the order is decided by the tails. */
  lemma LexGreaterTail(s: JString, t: JString)
    requires |s| > 0 && |t| > 0 && s[0] == t[0]
    ensures LexGreater(s, t) <==> LexGreater(s[1..], t[1..])
  {
    var s', t' := s[1..], t[1..];
    if k :| 0 <= k < |s| && k < |t| && s[..k] == t[..k] && s[k] > t[k] {
      assert k != 0;
      assert s'[..k - 1] == s[1..k] == t[1..k] == t'[..k - 1];
      assert s'[k - 1] > t'[k - 1];
    }
    if |t| < |s| && s[..|t|] == t {
      assert s'[..|t'|] == s[1..|t|] == t[1..] == t';
    }
    if k :| 0 <= k < |s'| && k < |t'| && s'[..k] == t'[..k] && s'[k] > t'[k] {
      assert s[..k + 1] == [s[0]] + s'[..k] == [t[0]] + t'[..k] == t[..k + 1];
      assert s[k + 1] > t[k + 1];
    }
    if |t'| < |s'| && s'[..|t'|] == t' {
      assert s[..|t|] == [s[0]] + s'[..|t'|] == [t[0]] + t' == t;
    }
  }

  /** `compareTo > 0` is exactly lexicographic "greater". */
  lemma {:induction false} CompareToPositive(s: JString, t: JString)
    ensures CompareTo(s, t) > 0 <==> LexGreater(s, t)
    decreases |s|
  {
    if |s| == 0 || |t| == 0 {
      if |t| == 0 {
        assert s[..|t|] == t;
      }
    } else if s[0] != t[0] {
      if s[0] > t[0] {
        assert s[..0] == t[..0];
      } else {
        // every nonempty common prefix would force s[0] == t[0]
        forall k | 0 < k <= |s| && k <= |t|
          ensures s[..k] != t[..k]
        {
          assert s[..k][0] != t[..k][0];
        }
      }
    } else {
      CompareToPositive(s[1..], t[1..]);
      LexGreaterTail(s, t);
    }
  }

  /** Swapping the operands negates the comparison. */
  lemma {:induction false} CompareToAntisymmetric(s: JString, t: JString)
    ensures CompareTo(t, s) == -CompareTo(s, t)
    decreases |s|
  {
    if |s| > 0 && |t| > 0 && s[0] == t[0] {
      CompareToAntisymmetric(s[1..], t[1..]);
    }
  }

  /** `compareTo` is zero exactly on equal strings. */
  lemma {:induction false} CompareToZero(s: JString, t: JString)
    ensures CompareTo(s, t) == 0 <==> s == t
    decreases |s|
  {
    if |s| > 0 && |t| > 0 {
      if s[0] == t[0] {
        CompareToZero(s[1..], t[1..]);
        assert s == [s[0]] + s[1..] && t == [t[0]] + t[1..];
      } else {
        assert s[0] != t[0];
      }
    }
  }

  /** `compareTo > 0` is transitive. */
  lemma {:induction false} CompareToTransitive(a: JString, b: JString, c: JString)
    requires CompareTo(a, b) > 0 && CompareTo(b, c) > 0
    ensures CompareTo(a, c) > 0
    decreases |a|
  {
    if |a| > 0 && |b| > 0 && |c| > 0 && a[0] == b[0] && b[0] == c[0] {
      CompareToTransitive(a[1..], b[1..], c[1..]);
    }
  }
}
