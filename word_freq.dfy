/** Word frequency count: lower-case the text, delete every character that is neither a
    word character nor white space, split at white space and count the fields. */
module WordFreq {
  import opened Ascii
  import opened MapEnum

  /** A word character of the regular expression class `\w`: `[0-9A-Za-z_]`. */
  predicate IsWordChar(c: char)
  {
    'a' <= c <= 'z' || 'A' <= c <= 'Z' || '0' <= c <= '9' || c == '_'
  }

  /** White space of the regular expression class `\s`: tab, newline, form feed,
      carriage return and space. */
  predicate IsRegexSpace(c: char)
  {
    c == ' ' || c == '\t' || c == '\n' || c == '\r' || c == '\U{C}'
  }

  /** The separators of `strings.Fields` below U+0100: the `\s` characters, vertical tab,
      next line and no-break space. */
  predicate IsFieldSpace(c: char)
  {
    IsRegexSpace(c) || c == '\U{B}' || c == '\U{85}' || c == '\U{A0}'
  }

  /** The characters a counted word can consist of. */
  predicate IsKeyChar(c: char)
  {
    'a' <= c <= 'z' || '0' <= c <= '9' || c == '_'
  }

  /** Delete the characters matched by `[^\w\s]`. */
  function RemovePunctuation(s: string): (r: string)
    ensures |r| <= |s|
    ensures forall c :: c in r ==> IsWordChar(c) || IsRegexSpace(c)
    decreases |s|
  {
    if s == [] then []
    else (if IsWordChar(s[0]) || IsRegexSpace(s[0]) then [s[0]] else []) + RemovePunctuation(s[1..])
  }

  /** Length of the run of non-separators at the start of `s`. */
  function RunLength(s: string): (n: nat)
    ensures n <= |s|
    ensures forall i :: 0 <= i < n ==> !IsFieldSpace(s[i])
    ensures n < |s| ==> IsFieldSpace(s[n])
    decreases |s|
  {
    if s == [] || IsFieldSpace(s[0]) then 0 else 1 + RunLength(s[1..])
  }

  /** `strings.Fields`: the maximal runs of non-separator characters, in order. */
  function Fields(s: string): (r: seq<string>)
    ensures |r| <= |s|
    ensures forall i :: 0 <= i < |r| ==> r[i] != []
    decreases |s|
  {
    if s == [] then []
    else if IsFieldSpace(s[0]) then Fields(s[1..])
    else
      var n := RunLength(s);
      [s[..n]] + Fields(s[n..])
  }

  /** The fields that get counted. */
  function Words(text: string): (r: seq<string>)
    ensures |r| <= |text|
  {
    Fields(RemovePunctuation(ToLower(text)))
  }

  /** Every field is non-empty and made of characters of `s` that are not separators. */
  lemma {:induction false} FieldsShape(s: string)
    ensures forall w :: w in Fields(s) ==> w != [] && forall c :: c in w ==> c in s && !IsFieldSpace(c)
    decreases |s|
  {
    if s != [] {
      if IsFieldSpace(s[0]) {
        FieldsShape(s[1..]);
      } else {
        var n := RunLength(s);
        FieldsShape(s[n..]);
        assert forall c :: c in s[..n] ==> c in s;
        assert forall c :: c in s[n..] ==> c in s;
      }
    }
  }

  /** Text made only of separators has no fields. */
  lemma {:induction false} FieldsOfBlank(s: string)
    requires forall c :: c in s ==> IsFieldSpace(c)
    ensures Fields(s) == []
    decreases |s|
  {
    if s != [] {
      assert s[0] in s;
      assert forall c :: c in s[1..] ==> c in s;
      FieldsOfBlank(s[1..]);
    }
  }

  /** Every counted word is non-empty and consists of lower-case letters, digits and `_`. */
  lemma WordsShape(text: string)
    ensures forall w :: w in Words(text) ==> w != [] && forall c :: c in w ==> IsKeyChar(c)
  {
    var clean := RemovePunctuation(ToLower(text));
    FieldsShape(clean);
    forall c | c in clean ensures !('A' <= c <= 'Z') {
      assert c in ToLower(text) by { RemovePunctuationSubset(ToLower(text), c); }
      var i :| 0 <= i < |ToLower(text)| && ToLower(text)[i] == c;
      LowerCharIdempotent(text[i]);
    }
  }

  lemma {:induction false} RemovePunctuationSubset(s: string, c: char)
    requires c in RemovePunctuation(s)
    ensures c in s
    decreases |s|
  {
    if c != s[0] {
      RemovePunctuationSubset(s[1..], c);
    }
  }

  /** Empty or white-space-only input has no words. */
  lemma BlankHasNoWords(text: string)
    requires forall c :: c in text ==> IsFieldSpace(c)
    ensures Words(text) == []
  {
    var clean := RemovePunctuation(ToLower(text));
    forall c | c in clean ensures IsFieldSpace(c) {
      RemovePunctuationSubset(ToLower(text), c);
      var i :| 0 <= i < |text| && ToLower(text)[i] == c;
      assert text[i] in text;
    }
    FieldsOfBlank(clean);
  }

  /** Counting ignores case: text that differs only in the case of ASCII letters has the
      same words. */
  lemma WordsIgnoreCase(s: string, t: string)
    requires |s| == |t|
    requires forall i :: 0 <= i < |s| ==> LowerChar(s[i]) == LowerChar(t[i])
    ensures Words(s) == Words(t)
  {
    ToLowerIgnoresCase(s, t);
  }

  /** Deleting punctuation distributes over concatenation. */
  lemma {:induction false} RemovePunctuationAppend(s: string, t: string)
    ensures RemovePunctuation(s + t) == RemovePunctuation(s) + RemovePunctuation(t)
    decreases |s|
  {
    if s == [] {
      assert s + t == t;
    } else {
      assert (s + t)[1..] == s[1..] + t;
      RemovePunctuationAppend(s[1..], t);
    }
  }

  /** Text of word characters and white space only is left as it is. */
  lemma {:induction false} RemovePunctuationKeeps(s: string)
    requires forall i :: 0 <= i < |s| ==> IsWordChar(s[i]) || IsRegexSpace(s[i])
    ensures RemovePunctuation(s) == s
    decreases |s|
  {
    if s != [] {
      RemovePunctuationKeeps(s[1..]);
    }
  }

  /** Appending text after a separator, or after a run that ends at a separator, does not
      lengthen the first run. */
  lemma {:induction false} RunLengthAppend(s: string, u: string)
    requires RunLength(s) < |s| || u == [] || IsFieldSpace(u[0])
    ensures RunLength(s + u) == RunLength(s)
    decreases |s|
  {
    if s == [] {
      assert s + u == u;
    } else if !IsFieldSpace(s[0]) {
      assert (s + u)[1..] == s[1..] + u;
      RunLengthAppend(s[1..], u);
    }
  }

  /** A single space splits the fields: the fields of `s + " " + t` are those of `s`
      followed by those of `t`. */
  lemma {:induction false} FieldsSpaceAppend(s: string, t: string)
    ensures Fields(s + [' '] + t) == Fields(s) + Fields(t)
    decreases |s|
  {
    var u := [' '] + t;
    assert s + [' '] + t == s + u;
    if s == [] {
      assert s + u == u;
      assert u[1..] == t;
    } else if IsFieldSpace(s[0]) {
      assert (s + u)[1..] == s[1..] + [' '] + t;
      FieldsSpaceAppend(s[1..], t);
    } else {
      var n := RunLength(s);
      RunLengthAppend(s, u);
      assert (s + u)[..n] == s[..n];
      assert (s + u)[n..] == s[n..] + [' '] + t;
      FieldsSpaceAppend(s[n..], t);
    }
  }

  /** The words of two texts joined by a space are the words of each, in order. */
  lemma WordsSpaceAppend(a: string, b: string)
    ensures Words(a + " " + b) == Words(a) + Words(b)
  {
    var la, lb := ToLower(a), ToLower(b);
    ToLowerAppend(a + " ", b);
    ToLowerAppend(a, " ");
    assert ToLower(" ") == [' '];
    assert ToLower(a + " " + b) == la + [' '] + lb;
    RemovePunctuationAppend(la + [' '], lb);
    RemovePunctuationAppend(la, [' ']);
    assert RemovePunctuation([' ']) == [' '] + RemovePunctuation([]);
    assert RemovePunctuation(ToLower(a + " " + b)) == RemovePunctuation(la) + [' '] + RemovePunctuation(lb);
    FieldsSpaceAppend(RemovePunctuation(la), RemovePunctuation(lb));
  }

  lemma {:induction false} RunLengthOfRun(w: string)
    requires forall i :: 0 <= i < |w| ==> !IsFieldSpace(w[i])
    ensures RunLength(w) == |w|
    decreases |w|
  {
    if w != [] {
      RunLengthOfRun(w[1..]);
    }
  }

  /** A word followed by a space and more text is the first field. */
  lemma FieldsOfWordThen(w: string, rest: string)
    requires w != [] && forall i :: 0 <= i < |w| ==> !IsFieldSpace(w[i])
    ensures Fields(w + [' '] + rest) == [w] + Fields(rest)
  {
    FieldsOfWord(w);
    FieldsSpaceAppend(w, rest);
  }

  /** A single word is a single field. */
  lemma FieldsOfWord(w: string)
    requires w != [] && forall i :: 0 <= i < |w| ==> !IsFieldSpace(w[i])
    ensures Fields(w) == [w]
  {
    RunLengthOfRun(w);
    assert w[..|w|] == w;
    assert w[|w|..] == [];
  }

  lemma DontLowered()
    ensures ToLower("Don't") == "don" + "'" + "t"
  {
    assert LowerChar('D') == 'd';
  }

  lemma DontStripped()
    ensures RemovePunctuation("don" + "'" + "t") == "dont"
  {
    RemovePunctuationAppend("don" + "'", "t");
    RemovePunctuationAppend("don", "'");
    RemovePunctuationKeeps("don");
    RemovePunctuationKeeps("t");
    assert RemovePunctuation("'") == [];
  }

  /** Punctuation is deleted, not turned into a separator. */
  lemma PunctuationIsDeleted()
    ensures Words("Don't") == ["dont"]
  {
    DontLowered();
    DontStripped();
    FieldsOfWord("dont");
  }

  // ---------------------------------------------------------------------------------
  // The sum of the counts in a map
  // ---------------------------------------------------------------------------------

  /** The sum of `m[k]` over `keys`. */
  ghost function SumOver(m: map<string, int>, keys: set<string>): int
    requires keys <= m.Keys
    decreases keys
  {
    if keys == {} then 0
    else
      NonEmptyHasElement(keys);
      var k :| k in keys;
      m[k] + SumOver(m, keys - {k})
  }

  /** The sum of all counts of a frequency map. */
  ghost function SumOfCounts(m: map<string, int>): int
  {
    SumOver(m, m.Keys)
  }

  /** The sum does not depend on which key is taken out first. */
  lemma {:induction false} SumOverPick(m: map<string, int>, keys: set<string>, k: string)
    requires keys <= m.Keys && k in keys
    ensures SumOver(m, keys) == m[k] + SumOver(m, keys - {k})
    decreases keys
  {
    var j :| j in keys && SumOver(m, keys) == m[j] + SumOver(m, keys - {j});
    if j != k {
      SumOverPick(m, keys - {j}, k);
      SumOverPick(m, keys - {k}, j);
      assert keys - {j} - {k} == keys - {k} - {j};
    }
  }

  /** The sum over `keys` only reads the entries at `keys`. */
  lemma {:induction false} SumOverAgree(m: map<string, int>, m': map<string, int>, keys: set<string>)
    requires keys <= m.Keys && keys <= m'.Keys
    requires forall k :: k in keys ==> m[k] == m'[k]
    ensures SumOver(m, keys) == SumOver(m', keys)
    decreases keys
  {
    if keys != {} {
      NonEmptyHasElement(keys);
      var k :| k in keys;
      SumOverPick(m, keys, k);
      SumOverPick(m', keys, k);
      SumOverAgree(m, m', keys - {k});
    }
  }

  /** Setting one entry changes the sum by the difference. */
  lemma SumOfCountsUpdate(m: map<string, int>, w: string, v: int)
    ensures SumOfCounts(m[w := v]) == SumOfCounts(m) - (if w in m then m[w] else 0) + v
  {
    var m' := m[w := v];
    SumOverPick(m', m'.Keys, w);
    if w in m {
      SumOverPick(m, m.Keys, w);
      assert m'.Keys - {w} == m.Keys - {w};
    } else {
      assert m'.Keys - {w} == m.Keys;
    }
    SumOverAgree(m, m', m'.Keys - {w});
  }

  // ---------------------------------------------------------------------------------
  // The counting loop
  // ---------------------------------------------------------------------------------

  /** `WordFrequencyCount`: each word of the text maps to its number of occurrences. The
      counts are at least 1 and add up to the number of words; every key is a non-empty
      run of lower-case letters, digits and `_`. */
  method WordFrequencyCount(text: string) returns (frequency: map<string, int>)
    ensures forall w :: w in frequency <==> w in Words(text)
    ensures forall w :: w in frequency ==> frequency[w] == multiset(Words(text))[w] && frequency[w] >= 1
    ensures forall w :: w in frequency ==> w != [] && forall c :: c in w ==> IsKeyChar(c)
    ensures SumOfCounts(frequency) == |Words(text)|
  {
    var words := Fields(RemovePunctuation(ToLower(text)));
    frequency := map[];
    for i := 0 to |words|
      invariant forall w :: w in frequency <==> w in words[..i]
      invariant forall w :: w in frequency ==> frequency[w] == multiset(words[..i])[w]
      invariant SumOfCounts(frequency) == i
    {
      var word := words[i];
      assert words[..i + 1] == words[..i] + [word];
      var count := if word in frequency then frequency[word] else 0;
      SumOfCountsUpdate(frequency, word, count + 1);
      frequency := frequency[word := count + 1];
    }
    assert words[..|words|] == words;
    WordsShape(text);
  }

  /** Text with only punctuation in it is deleted entirely. */
  lemma {:induction false} RemovePunctuationDrops(s: string)
    requires forall i :: 0 <= i < |s| ==> !IsWordChar(s[i]) && !IsRegexSpace(s[i])
    ensures RemovePunctuation(s) == []
    decreases |s|
  {
    if s != [] {
      RemovePunctuationDrops(s[1..]);
    }
  }

  /** A run of word characters followed by punctuation is a single word, lower-cased. */
  lemma WordOfToken(w: string, p: string)
    requires w != [] && forall i :: 0 <= i < |w| ==> IsWordChar(w[i])
    requires forall i :: 0 <= i < |p| ==> !IsWordChar(p[i]) && !IsRegexSpace(p[i])
    ensures Words(w + p) == [ToLower(w)]
  {
    ToLowerAppend(w, p);
    RemovePunctuationAppend(ToLower(w), ToLower(p));
    assert RemovePunctuation(ToLower(w)) == ToLower(w) by {
      forall i | 0 <= i < |w| ensures IsWordChar(ToLower(w)[i]) || IsRegexSpace(ToLower(w)[i]) {
        LowerCharIdempotent(w[i]);
      }
      RemovePunctuationKeeps(ToLower(w));
    }
    assert RemovePunctuation(ToLower(p)) == [] by {
      RemovePunctuationDrops(ToLower(p));
    }
    assert ToLower(w) + [] == ToLower(w);
    FieldsOfWord(ToLower(w));
  }

  /** Splitting a slice at a space. */
  lemma WordsSplitAt(t: string, i: int, k: int, j: int)
    requires 0 <= i <= k < j <= |t| && t[k] == ' '
    ensures Words(t[i..j]) == Words(t[i..k]) + Words(t[k + 1..j])
  {
    assert t[i..j] == t[i..k] + " " + t[k + 1..j];
    WordsSpaceAppend(t[i..k], t[k + 1..j]);
  }

  /** A slice made of a run of word characters and then punctuation is one word. */
  lemma WordOfSlice(t: string, i: int, j: int, k: int)
    requires 0 <= i < j <= k <= |t|
    requires forall m :: i <= m < j ==> IsWordChar(t[m])
    requires forall m :: j <= m < k ==> !IsWordChar(t[m]) && !IsRegexSpace(t[m])
    ensures Words(t[i..k]) == [ToLower(t[i..j])]
  {
    assert t[i..k] == t[i..j] + t[j..k];
    WordOfToken(t[i..j], t[j..k]);
  }

  // The sample sentence of the exercise, "Hello, hello! How are you? You are doing great,
  // right?", is taken in two halves, each split at its spaces into tokens. The lemmas take
  // the text as a parameter equal to the literal and work on slices of it, one token at a
  // time.

  lemma SampleFirstSplit(t: string)
    requires t == "Hello, hello! How are you?"
    ensures Words(t) == Words(t[0..6]) + Words(t[7..13]) + Words(t[14..26])
  {
    assert t == t[0..26];
    WordsSplitAt(t, 0, 6, 26);
    WordsSplitAt(t, 7, 13, 26);
  }

  lemma SampleFirstSplitRest(t: string)
    requires t == "Hello, hello! How are you?"
    ensures Words(t[14..26]) == Words(t[14..17]) + Words(t[18..21]) + Words(t[22..26])
  {
    WordsSplitAt(t, 14, 17, 26);
    WordsSplitAt(t, 18, 21, 26);
  }

  lemma SampleHelloComma(t: string)
    requires t == "Hello, hello! How are you?"
    ensures Words(t[0..6]) == ["hello"]
  {
    WordOfSlice(t, 0, 5, 6);
    assert ToLower(t[0..5]) == "hello";
  }

  lemma SampleHelloBang(t: string)
    requires t == "Hello, hello! How are you?"
    ensures Words(t[7..13]) == ["hello"]
  {
    WordOfSlice(t, 7, 12, 13);
    assert ToLower(t[7..12]) == "hello";
  }

  lemma SampleFirstRest(t: string)
    requires t == "Hello, hello! How are you?"
    ensures Words(t[14..17]) == ["how"] && Words(t[18..21]) == ["are"] && Words(t[22..26]) == ["you"]
  {
    WordOfSlice(t, 14, 17, 17);
    assert ToLower(t[14..17]) == "how";
    WordOfSlice(t, 18, 21, 21);
    assert ToLower(t[18..21]) == "are";
    WordOfSlice(t, 22, 25, 26);
    assert ToLower(t[22..25]) == "you";
  }

  /** The first half of the sample sentence. */
  lemma SampleFirstHalf(t: string)
    requires t == "Hello, hello! How are you?"
    ensures Words(t) == ["hello", "hello", "how", "are", "you"]
  {
    SampleFirstSplit(t);
    SampleFirstSplitRest(t);
    SampleHelloComma(t);
    SampleHelloBang(t);
    SampleFirstRest(t);
  }

  lemma SampleSecondSplit(t: string)
    requires t == "You are doing great, right?"
    ensures Words(t) == Words(t[0..3]) + Words(t[4..7]) + Words(t[8..27])
  {
    assert t == t[0..27];
    WordsSplitAt(t, 0, 3, 27);
    WordsSplitAt(t, 4, 7, 27);
  }

  lemma SampleSecondSplitRest(t: string)
    requires t == "You are doing great, right?"
    ensures Words(t[8..27]) == Words(t[8..13]) + Words(t[14..20]) + Words(t[21..27])
  {
    WordsSplitAt(t, 8, 13, 27);
    WordsSplitAt(t, 14, 20, 27);
  }

  lemma SampleSecondYou(t: string)
    requires t == "You are doing great, right?"
    ensures Words(t[0..3]) == ["you"]
  {
    assert t[0] == 'Y' && t[1] == 'o' && t[2] == 'u';
    WordOfSlice(t, 0, 3, 3);
    assert ToLower(t[0..3]) == "you";
  }

  lemma SampleSecondAre(t: string)
    requires t == "You are doing great, right?"
    ensures Words(t[4..7]) == ["are"]
  {
    assert t[4] == 'a' && t[5] == 'r' && t[6] == 'e';
    WordOfSlice(t, 4, 7, 7);
    assert ToLower(t[4..7]) == "are";
  }

  lemma SampleSecondDoing(t: string)
    requires t == "You are doing great, right?"
    ensures Words(t[8..13]) == ["doing"]
  {
    assert t[8] == 'd' && t[9] == 'o' && t[10] == 'i' && t[11] == 'n' && t[12] == 'g';
    WordOfSlice(t, 8, 13, 13);
    assert ToLower(t[8..13]) == "doing";
  }

  lemma SampleSecondGreat(t: string)
    requires t == "You are doing great, right?"
    ensures Words(t[14..20]) == ["great"]
  {
    assert t[14] == 'g' && t[15] == 'r' && t[16] == 'e' && t[17] == 'a' && t[18] == 't';
    WordOfSlice(t, 14, 19, 20);
    assert ToLower(t[14..19]) == "great";
  }

  lemma SampleSecondRight(t: string)
    requires t == "You are doing great, right?"
    ensures Words(t[21..27]) == ["right"]
  {
    assert t[21] == 'r' && t[22] == 'i' && t[23] == 'g' && t[24] == 'h' && t[25] == 't';
    WordOfSlice(t, 21, 26, 27);
    assert ToLower(t[21..26]) == "right";
  }

  /** The second half of the sample sentence. */
  lemma SampleSecondHalf(t: string)
    requires t == "You are doing great, right?"
    ensures Words(t) == ["you", "are", "doing", "great", "right"]
  {
    SampleSecondSplit(t);
    SampleSecondSplitRest(t);
    SampleSecondYou(t);
    SampleSecondAre(t);
    SampleSecondDoing(t);
    SampleSecondGreat(t);
    SampleSecondRight(t);
  }

  lemma SampleJoin(text: string, a: string, b: string)
    requires a == "Hello, hello! How are you?" && b == "You are doing great, right?"
    requires text == a + " " + b
    ensures Words(text) == ["hello", "hello", "how", "are", "you", "you", "are", "doing", "great", "right"]
  {
    WordsSpaceAppend(a, b);
    SampleFirstHalf(a);
    SampleSecondHalf(b);
  }

  /** The sample sentence of the exercise: "hello", "are" and "you" occur twice, "how",
      "doing", "great" and "right" once. */
  lemma SampleSentence(text: string)
    requires text == "Hello, hello! How are you? You are doing great, right?"
    ensures Words(text) == ["hello", "hello", "how", "are", "you", "you", "are", "doing", "great", "right"]
  {
    SampleJoin(text, "Hello, hello! How are you?", "You are doing great, right?");
  }

  /** The counts the sample sentence yields. */
  lemma SampleCounts(words: seq<string>)
    requires words == ["hello", "hello", "how", "are", "you", "you", "are", "doing", "great", "right"]
    ensures multiset(words)["hello"] == 2 && multiset(words)["are"] == 2 && multiset(words)["you"] == 2
    ensures multiset(words)["how"] == 1 && multiset(words)["doing"] == 1
    ensures multiset(words)["great"] == 1 && multiset(words)["right"] == 1
    ensures |multiset(words)| == 10
  {
  }

  /** The program's own call: counting the sample sentence gives "hello", "are" and "you"
      the count 2, "how", "doing", "great" and "right" the count 1, and no other key. */
  method SampleFrequency(text: string) returns (frequency: map<string, int>)
    requires text == "Hello, hello! How are you? You are doing great, right?"
    ensures frequency.Keys == {"hello", "are", "you", "how", "doing", "great", "right"}
    ensures frequency["hello"] == 2 && frequency["are"] == 2 && frequency["you"] == 2
    ensures frequency["how"] == 1 && frequency["doing"] == 1 && frequency["great"] == 1 && frequency["right"] == 1
  {
    frequency := WordFrequencyCount(text);
    SampleSentence(text);
    SampleCounts(Words(text));
  }
}
