/**
 * What a normalised plan keeps of the plan it was made from (src/services/search-plan.service.ts), field by
 * field and word by word.
 */
module PlanMeaning {
  import opened HybridSearch
  import opened KstFilters
  import opened Options
  import opened PlanNormalForm
  import opened ScoreMeaning
  import opened Sequences
  import opened Utf16

  /** The number between the bounds nearest to the one given. */
  predicate IsNearest(n: int, given: int, lo: int, hi: int) {
    && lo <= n <= hi && (lo <= given <= hi ==> n == given)
    && (given < lo ==> n == lo) && (given > hi ==> n == hi)
  }

  /** A count of 0 stands for 5; others go to the nearest bound. */
  predicate IsCount(n: int, given: int, hi: int) {
    IsNearest(n, if given == 0 then 5 else given, 1, hi)
  }

  predicate IsShare(x: real, given: real) {
    && 0.0 <= x <= 1.0 && (0.0 <= given <= 1.0 ==> x == given)
    && (given < 0.0 ==> x == 0.0) && (given > 1.0 ==> x == 1.0)
  }

  /** Mode, sort, switch and bias are the plan's; numbers are the plan's as far as they are in bounds. */
  lemma FieldsKept(p: Plan, day: int, lower: Text -> Text, isWord: Text -> bool)
    ensures var n := Normalized(p, day, lower, isWord);
            && n.mode == p.mode && n.sort == p.sort
            && n.hybrid.enabled == p.hybrid.enabled && n.hybrid.bias == p.hybrid.bias
            && IsCount(n.topK, p.topK, 10) && IsCount(n.limit, p.limit, 20) && IsShare(n.threshold, p.threshold)
            && IsNearest(n.hybrid.maxRewrites, p.hybrid.maxRewrites, 0, 4)
            && IsNearest(n.hybrid.maxKeywords, p.hybrid.maxKeywords, 0, 5)
            && n.hybrid.alpha.Some? && IsVecWeight(n.hybrid.alpha.value, Some(p.hybrid.bias), p.hybrid.alpha)
  {
    hide CleanedRewrites, CleanedKeywords, NormalWeights, NormalTime;
  }

  /** The weights stay in proportion; without any the chunk counts seven tenths. */
  lemma WeightsKept(p: Plan, day: int, lower: Text -> Text, isWord: Text -> bool)
    requires p.weights.chunk >= 0.0 && p.weights.title >= 0.0
    ensures var n, w := Normalized(p, day, lower, isWord).weights, p.weights;
            && n.chunk + n.title == 1.0
            && (if w.chunk + w.title > 0.0 then n.chunk * w.title == n.title * w.chunk
                else n.chunk == 0.7 && n.title == 0.3)
  {
    hide CleanedRewrites, CleanedKeywords, NormalTime, NormalHybrid;
    WeightsNormal(p.weights);
    var w := p.weights;
    if w.chunk + w.title > 0.0 {
      Proportion(w.chunk, w.title, w.chunk + w.title);
    }
  }

  lemma Proportion(x: real, y: real, sum: real)
    requires sum > 0.0
    ensures (x / sum) * y == (y / sum) * x
  {
    var a, b := x / sum, y / sum;
    assert a * sum == x && b * sum == y;
    assert a * y == a * (b * sum) == (a * sum) * b;
  }

  /** The time filter is there if and only if it resolves, and is then the range it resolves to. */
  lemma TimeKept(p: Plan, day: int, lower: Text -> Text, isWord: Text -> bool)
    ensures var n, resolved := Normalized(p, day, lower, isWord).time,
                               if p.time.Some? then Resolve(p.time.value, day) else None;
            && (n.Some? <==> resolved.Some?)
            && (n.Some? ==> n.value == Absolute(Some(resolved.value.from), Some(resolved.value.to)))
  {
    hide CleanedRewrites, CleanedKeywords, NormalWeights, NormalHybrid, Resolve;
  }

  // Word lists

  /** The filler words. */
  lemma StopwordsAre(w: Text)
    ensures w in STOPWORDS <==>
              || w == [0xAE00] || w == [0xD3EC, 0xC2A4, 0xD2B8] || w == [0xBE14, 0xB85C, 0xADF8]
              || w == [0xC18C, 0xAC1C] || w == [0xC815, 0xB9AC] || w == [0xB0B4, 0xC6A9]
              || w == [0xCD5C, 0xC2E0] || w == [0xCD5C, 0xADFC] || w == [0xC815, 0xBCF4]
  {
  }

  predicate AcceptsRewrite(s: Text) {
    |Trim(s)| >= 2 && Trim(s) !in STOPWORDS
  }

  /** A keyword is one word of two units at least, of letters and digits once its zero-width units are gone. */
  predicate AcceptsKeyword(s: Text, lower: Text -> Text, isWord: Text -> bool) {
    var token := StripZeroWidth(Trim(s));
    && |Trim(s)| >= 2 && (forall c :: c in Trim(s) ==> !IsSpace(c))
    && token != [] && isWord(token) && lower(token) !in STOPWORDS
  }

  /** The entries a list of keys holds. */
  function EntriesOf(keys: seq<Option<Text>>): set<Text> {
    set i | 0 <= i < |keys| && keys[i].Some? :: keys[i].value
  }

  lemma {:induction false} SizeOfDistinct(s: seq<Text>)
    requires NoRepeats(s)
    ensures |(set x | x in s)| == |s|
  {
    if s != [] {
      SizeOfDistinct(s[1..]);
      assert s == [s[0]] + s[1..] && s[0] !in s[1..];
      assert (set x | x in s) == (set x | x in s[1..]) + {s[0]};
    }
  }

  lemma DistinctIsEntries(keys: seq<Option<Text>>)
    ensures |Distinct(keys)| == |EntriesOf(keys)|
  {
    DistinctKeys(keys);
    SizeOfDistinct(Distinct(keys));
    hide Distinct;
    var entries := set x | x in Distinct(keys);
    forall x ensures x in entries <==> x in EntriesOf(keys) {
      if Some(x) in keys {
        var i :| 0 <= i < |keys| && keys[i] == Some(x);
      }
    }
    assert entries == EntriesOf(keys);
  }

  /** What is kept is what came when fewer than `max` different entries had come. */
  lemma KeptExactly(keys: seq<Option<Text>>, max: nat, k: Text)
    ensures k in Take(Distinct(keys), max)
            <==> exists i :: 0 <= i < |keys| && keys[i] == Some(k) && |EntriesOf(keys[..i])| < max
  {
    if k in Take(Distinct(keys), max) {
      var q :| 0 <= q < |Take(Distinct(keys), max)| && Take(Distinct(keys), max)[q] == k;
      var i := KeptCameEarly(keys, q);
      DistinctIsEntries(keys[..i]);
    }
    if i :| 0 <= i < |keys| && keys[i] == Some(k) && |EntriesOf(keys[..i])| < max {
      DistinctIsEntries(keys[..i]);
      KeptWhileNotFull(keys, i, max);
    }
  }

  /** The lowered entries of the rewrites accepted among the first `i`. */
  function RewritesBefore(arr: seq<Text>, i: nat, lower: Text -> Text): set<Text>
    requires i <= |arr|
  {
    set j | 0 <= j < i && AcceptsRewrite(arr[j]) :: lower(Trim(arr[j]))
  }

  function KeywordsBefore(arr: seq<Text>, i: nat, lower: Text -> Text, isWord: Text -> bool): set<Text>
    requires i <= |arr|
  {
    set j | 0 <= j < i && AcceptsKeyword(arr[j], lower, isWord) :: lower(StripZeroWidth(Trim(arr[j])))
  }

  lemma RewriteKeyIs(s: Text, lower: Text -> Text)
    ensures RewriteKey(s, lower) == if AcceptsRewrite(s) then Some(lower(Trim(s))) else None
  {
  }

  lemma KeywordKeyIs(s: Text, lower: Text -> Text, isWord: Text -> bool)
    ensures KeywordKey(s, lower, isWord)
         == if AcceptsKeyword(s, lower, isWord) then Some(lower(StripZeroWidth(Trim(s)))) else None
  {
    var t := Trim(s);
    hide Trim, StripZeroWidth, STOPWORDS, IsSpace;
    assert HasSpace(t) <==> exists c :: c in t && IsSpace(c) by {
      if c :| c in t && IsSpace(c) {
        var i :| 0 <= i < |t| && t[i] == c;
      }
      if i :| 0 <= i < |t| && IsSpace(t[i]) {
        assert t[i] in t;
      }
    }
  }

  /** The i-th rewrite is accepted as `k` while the list is not full. */
  ghost predicate BringsRewrite(arr: seq<Text>, max: nat, lower: Text -> Text, k: Text, i: nat) {
    i < |arr| && AcceptsRewrite(arr[i]) && lower(Trim(arr[i])) == k && |RewritesBefore(arr, i, lower)| < max
  }

  ghost predicate BringsKeyword(
    arr: seq<Text>, max: nat, lower: Text -> Text, isWord: Text -> bool, k: Text, i: nat)
  {
    && i < |arr| && AcceptsKeyword(arr[i], lower, isWord) && lower(StripZeroWidth(Trim(arr[i]))) == k
    && |KeywordsBefore(arr, i, lower, isWord)| < max
  }

  /**
   * A rewrite of two units at least that is no filler word is in the list, trimmed and lowered, unless the list
   * was full before it; and nothing else is.
   */
  lemma RewritesKept(p: Plan, day: int, lower: Text -> Text, isWord: Text -> bool, k: Text)
    ensures var n := Normalized(p, day, lower, isWord);
            && 0 <= n.hybrid.maxRewrites
            && (k in n.rewrites
                <==> exists i: nat :: BringsRewrite(p.rewrites, n.hybrid.maxRewrites, lower, k, i))
  {
    var arr, max := p.rewrites, NormalHybrid(p.hybrid).maxRewrites;
    var keys := RewriteKeys(arr, lower);
    hide Distinct, AcceptsRewrite, RewriteKey, CleanedKeywords, Normalized, RewriteKeys;
    KeptExactly(keys, max, k);
    forall i | 0 <= i <= |arr| ensures EntriesOf(keys[..i]) == RewritesBefore(arr, i, lower) {
      RewriteEntries(arr, i, lower);
    }
    forall i | 0 <= i < |arr| ensures keys[i] == Some(k) <==> AcceptsRewrite(arr[i]) && lower(Trim(arr[i])) == k {
      RewriteKeyIs(arr[i], lower);
    }
    RewritesOf(p, day, lower, isWord);
    if i :| 0 <= i < |keys| && keys[i] == Some(k) && |EntriesOf(keys[..i])| < max {
      assert BringsRewrite(arr, max, lower, k, i);
    }
    if i: nat :| BringsRewrite(arr, max, lower, k, i) {
      assert keys[i] == Some(k) && |EntriesOf(keys[..i])| < max;
    }
  }

  lemma RewritesOf(p: Plan, day: int, lower: Text -> Text, isWord: Text -> bool)
    ensures var n := Normalized(p, day, lower, isWord);
            && n.hybrid.maxRewrites == NormalHybrid(p.hybrid).maxRewrites
            && n.rewrites == Take(Distinct(RewriteKeys(p.rewrites, lower)), NormalHybrid(p.hybrid).maxRewrites)
  {
    hide CleanedKeywords, NormalTime, NormalWeights;
  }

  lemma RewriteEntries(arr: seq<Text>, i: nat, lower: Text -> Text)
    requires i <= |arr|
    ensures EntriesOf(RewriteKeys(arr, lower)[..i]) == RewritesBefore(arr, i, lower)
  {
    var keys := RewriteKeys(arr, lower);
    hide AcceptsRewrite, RewriteKey, RewriteKeys;
    forall j | 0 <= j < i
      ensures keys[..i][j] == if AcceptsRewrite(arr[j]) then Some(lower(Trim(arr[j]))) else None
    {
      RewriteKeyIs(arr[j], lower);
    }
  }

  /** Likewise for keywords. */
  lemma KeywordsKept(p: Plan, day: int, lower: Text -> Text, isWord: Text -> bool, k: Text)
    ensures var n := Normalized(p, day, lower, isWord);
            && 0 <= n.hybrid.maxKeywords
            && (k in n.keywords
                <==> exists i: nat :: BringsKeyword(p.keywords, n.hybrid.maxKeywords, lower, isWord, k, i))
  {
    var arr, max := p.keywords, NormalHybrid(p.hybrid).maxKeywords;
    var keys := KeywordKeys(arr, lower, isWord);
    hide Distinct, AcceptsKeyword, KeywordKey, CleanedRewrites, Normalized, KeywordKeys;
    KeptExactly(keys, max, k);
    forall i | 0 <= i <= |arr| ensures EntriesOf(keys[..i]) == KeywordsBefore(arr, i, lower, isWord) {
      KeywordEntries(arr, i, lower, isWord);
    }
    forall i | 0 <= i < |arr|
      ensures keys[i] == Some(k)
              <==> AcceptsKeyword(arr[i], lower, isWord) && lower(StripZeroWidth(Trim(arr[i]))) == k
    {
      KeywordKeyIs(arr[i], lower, isWord);
    }
    KeywordsOf(p, day, lower, isWord);
    if i :| 0 <= i < |keys| && keys[i] == Some(k) && |EntriesOf(keys[..i])| < max {
      assert BringsKeyword(arr, max, lower, isWord, k, i);
    }
    if i: nat :| BringsKeyword(arr, max, lower, isWord, k, i) {
      assert keys[i] == Some(k) && |EntriesOf(keys[..i])| < max;
    }
  }

  lemma KeywordsOf(p: Plan, day: int, lower: Text -> Text, isWord: Text -> bool)
    ensures var n := Normalized(p, day, lower, isWord);
            && n.hybrid.maxKeywords == NormalHybrid(p.hybrid).maxKeywords
            && n.keywords
               == Take(Distinct(KeywordKeys(p.keywords, lower, isWord)), NormalHybrid(p.hybrid).maxKeywords)
  {
    hide CleanedRewrites, NormalTime, NormalWeights;
  }

  lemma KeywordEntries(arr: seq<Text>, i: nat, lower: Text -> Text, isWord: Text -> bool)
    requires i <= |arr|
    ensures EntriesOf(KeywordKeys(arr, lower, isWord)[..i]) == KeywordsBefore(arr, i, lower, isWord)
  {
    var keys := KeywordKeys(arr, lower, isWord);
    hide AcceptsKeyword, KeywordKey, KeywordKeys;
    forall j | 0 <= j < i
      ensures keys[..i][j]
              == if AcceptsKeyword(arr[j], lower, isWord) then Some(lower(StripZeroWidth(Trim(arr[j])))) else None
    {
      KeywordKeyIs(arr[j], lower, isWord);
    }
  }
}
