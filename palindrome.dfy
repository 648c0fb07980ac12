/** Palindrome check ignoring case and every character outside `a-z0-9`. */
module Palindrome {
  import opened Ascii

  /** The characters kept after lower-casing. */
  predicate IsAlnum(c: char)
  {
    'a' <= c <= 'z' || '0' <= c <= '9'
  }

  /** Delete every character outside `a-z0-9` (the regular expression `[^a-z0-9]`
      replaced by the empty string). */
  function KeepAlnum(s: string): (r: string)
    ensures |r| <= |s|
    ensures forall c :: c in r ==> IsAlnum(c)
    decreases |s|
  {
    if s == [] then []
    else (if IsAlnum(s[0]) then [s[0]] else []) + KeepAlnum(s[1..])
  }

  /** The text the check compares: lower-cased, then filtered. */
  function Cleaned(s: string): (r: string)
    ensures |r| <= |s|
    ensures forall i :: 0 <= i < |r| ==> IsAlnum(r[i])
  {
    KeepAlnum(ToLower(s))
  }

  function Reverse(s: string): (r: string)
    ensures |r| == |s|
    decreases |s|
  {
    if s == [] then [] else Reverse(s[1..]) + [s[0]]
  }

  lemma {:induction false} ReverseAt(s: string, k: int)
    requires 0 <= k < |s|
    ensures Reverse(s)[k] == s[|s| - 1 - k]
    decreases |s|
  {
    if k < |s| - 1 {
      ReverseAt(s[1..], k);
    }
  }

  /** The mirror condition the loop checks: index `i` equals index `n - 1 - i` for every
      `i < n / 2`. */
  predicate Mirrored(s: string)
  {
    forall i :: 0 <= i < |s| / 2 ==> s[i] == s[|s| - 1 - i]
  }

  lemma ReverseOfMirrored(s: string)
    requires Mirrored(s)
    ensures s == Reverse(s)
  {
    var r := Reverse(s);
    var n := |s|;
    forall k | 0 <= k < n ensures s[k] == r[k] {
      ReverseAt(s, k);
      if k >= n / 2 && n - 1 - k < n / 2 {
        assert s[n - 1 - k] == s[n - 1 - (n - 1 - k)];
      }
    }
  }

  lemma MirroredOfReverse(s: string)
    requires s == Reverse(s)
    ensures Mirrored(s)
  {
    forall i | 0 <= i < |s| / 2 ensures s[i] == s[|s| - 1 - i] {
      ReverseAt(s, i);
    }
  }

  /** Comparing the first half with the mirrored second half decides whether a string
      equals its reverse. */
  lemma MirrorIffReverse(s: string)
    ensures Mirrored(s) <==> s == Reverse(s)
  {
    if Mirrored(s) {
      ReverseOfMirrored(s);
    }
    if s == Reverse(s) {
      MirroredOfReverse(s);
    }
  }

  /** What the check decides: the cleaned text reads the same backwards, which is the
      mirror condition on the cleaned text. */
  predicate Palindromic(s: string)
    ensures Palindromic(s) <==> Mirrored(Cleaned(s))
  {
    MirrorIffReverse(Cleaned(s));
    Cleaned(s) == Reverse(Cleaned(s))
  }

  /** `IsPalindrome`: clean the text, then compare index `i` with index `n - 1 - i` for
      every `i < n / 2`, stopping at the first mismatch. */
  method IsPalindrome(s: string) returns (r: bool)
    ensures r <==> Palindromic(s)
  {
    var clean := KeepAlnum(ToLower(s));
    var n := |clean|;
    MirrorIffReverse(clean);
    for i := 0 to n / 2
      invariant forall j :: 0 <= j < i ==> clean[j] == clean[n - 1 - j]
    {
      if clean[i] != clean[n - 1 - i] {
        return false;
      }
    }
    return true;
  }

  /** Filtering distributes over concatenation. */
  lemma {:induction false} KeepAlnumAppend(s: string, t: string)
    ensures KeepAlnum(s + t) == KeepAlnum(s) + KeepAlnum(t)
    decreases |s|
  {
    if s == [] {
      assert s + t == t;
    } else {
      assert (s + t)[1..] == s[1..] + t;
      KeepAlnumAppend(s[1..], t);
    }
  }

  /** Inserting or deleting a character that is not `a-z0-9` after lower-casing does not
      change the cleaned text, hence not the result. */
  lemma IgnoresPunctuation(a: string, c: char, b: string)
    requires !IsAlnum(LowerChar(c))
    ensures Cleaned(a + [c] + b) == Cleaned(a + b)
    ensures Palindromic(a + [c] + b) == Palindromic(a + b)
  {
    CleanedAppend(a + [c], b);
    CleanedAppend(a, [c]);
    CleanedAppend(a, b);
    CleanedDropsChar(c);
  }

  /** Cleaning works piecewise. */
  lemma CleanedAppend(s: string, t: string)
    ensures Cleaned(s + t) == Cleaned(s) + Cleaned(t)
  {
    ToLowerAppend(s, t);
    KeepAlnumAppend(ToLower(s), ToLower(t));
  }

  lemma CleanedDropsChar(c: char)
    requires !IsAlnum(LowerChar(c))
    ensures Cleaned([c]) == []
  {
    var l := LowerChar(c);
    assert ToLower([c]) == [l];
    assert [l][1..] == [];
  }

  /** Changing the case of ASCII letters does not change the result. */
  lemma IgnoresCase(s: string, t: string)
    requires |s| == |t|
    requires forall i :: 0 <= i < |s| ==> LowerChar(s[i]) == LowerChar(t[i])
    ensures Palindromic(s) == Palindromic(t)
  {
    ToLowerIgnoresCase(s, t);
  }

  /** Text with nothing left after cleaning (for instance "" or "!!") is a palindrome, and
      so is text with a single character left. */
  lemma ShortCleanedIsPalindrome(s: string)
    requires |Cleaned(s)| <= 1
    ensures Palindromic(s)
  {
  }

  lemma Examples()
    ensures Palindromic("")
    ensures Palindromic("!!")
    ensures Palindromic("Aba")
    ensures !Palindromic("ab")
  {
    assert Cleaned("!!") == [];
    assert LowerChar('A') == 'a';
    assert ToLower("Aba") == "aba";
    assert Cleaned("Aba") == "aba";
    assert Cleaned("ab") == "ab";
    assert Reverse("ab") == "ba";
  }
}
