/**
 * Normalising a search plan (src/services/search-plan.service.ts, after the schema of src/types/ai.v2.types.ts
 * has filled in defaults): weights, bounds, word lists and the time filter.
 * `lower` stands for `toLowerCase`, and `isWord` tells whether a text is of letters, digits, `_` and `-` only.
 */
module PlanNormalForm {
  import opened HybridSearch
  import opened KstFilters
  import KstRanges
  import opened Options
  import opened Sequences
  import opened Utf16

  datatype Weights = Weights(chunk: real, title: real)

  datatype Hybrid = Hybrid(enabled: bool, bias: Bias, alpha: Option<real>, maxRewrites: int, maxKeywords: int)

  datatype Mode = Rag | Post

  datatype SortOrder = NewestFirst | OldestFirst

  datatype Plan = Plan(
    mode: Mode, topK: int, threshold: real, weights: Weights, rewrites: seq<Text>, keywords: seq<Text>,
    hybrid: Hybrid, time: Option<TimeFilter>, sort: SortOrder, limit: int)

  // Word lists

  predicate IsHangul(c: Unit) {
    0xAC00 <= c <= 0xD7A3
  }

  predicate IsZeroWidth(c: Unit) {
    0x200B <= c <= 0x200D || c == 0xFEFF
  }

  /** The filler words of the source, all Hangul. */
  const STOPWORDS: set<Text> := {
    [0xAE00], [0xD3EC, 0xC2A4, 0xD2B8], [0xBE14, 0xB85C, 0xADF8], [0xC18C, 0xAC1C], [0xC815, 0xB9AC],
    [0xB0B4, 0xC6A9], [0xCD5C, 0xC2E0], [0xCD5C, 0xADFC], [0xC815, 0xBCF4]}

  /**
   * What is assumed of lowering: done twice it does no more; it makes no white space, no zero-width unit and no
   * filler word, and of two units at least two.
   */
  ghost predicate IsLowering(lower: Text -> Text) {
    forall s: Text ::
      && lower(lower(s)) == lower(s)
      && (IsTrimmed(s) ==> IsTrimmed(lower(s)))
      && (HasSpace(lower(s)) ==> HasSpace(s))
      && (HasZeroWidth(lower(s)) ==> HasZeroWidth(s))
      && (lower(s) in STOPWORDS ==> lower(s) == s)
      && (|s| >= 2 ==> |lower(s)| >= 2)
  }

  predicate HasZeroWidth(s: Text) {
    exists i :: 0 <= i < |s| && IsZeroWidth(s[i])
  }

  function StripZeroWidth(s: Text): Text {
    if s == [] then []
    else if IsZeroWidth(s[0]) then StripZeroWidth(s[1..])
    else [s[0]] + StripZeroWidth(s[1..])
  }

  predicate HasSpace(s: Text) {
    exists i :: 0 <= i < |s| && IsSpace(s[i])
  }

  /** The entry a rewrite contributes to its list, if any. */
  function RewriteKey(s: Text, lower: Text -> Text): Option<Text> {
    var t := Trim(s);
    if |t| < 2 || t in STOPWORDS then None else Some(lower(t))
  }

  /** The entry a keyword contributes; its length is checked before zero-width units are stripped. */
  function KeywordKey(s: Text, lower: Text -> Text, isWord: Text -> bool): Option<Text> {
    var raw := Trim(s);
    if |raw| < 2 || HasSpace(raw) then None
    else
      var token := StripZeroWidth(raw);
      if token == [] || !isWord(token) || lower(token) in STOPWORDS then None
      else Some(lower(token))
  }

  /** The keys of a list, each once, in order of first appearance. */
  function Distinct(keys: seq<Option<Text>>): seq<Text> {
    if keys == [] then []
    else
      var before := Distinct(Init(keys));
      if Last(keys).None? || Last(keys).value in before then before else before + [Last(keys).value]
  }

  function RewriteKeys(arr: seq<Text>, lower: Text -> Text): (r: seq<Option<Text>>)
    ensures |r| == |arr|
    ensures forall i :: 0 <= i < |arr| ==> r[i] == RewriteKey(arr[i], lower)
  {
    if arr == [] then [] else RewriteKeys(Init(arr), lower) + [RewriteKey(Last(arr), lower)]
  }

  function KeywordKeys(arr: seq<Text>, lower: Text -> Text, isWord: Text -> bool): (r: seq<Option<Text>>)
    ensures |r| == |arr|
    ensures forall i :: 0 <= i < |arr| ==> r[i] == KeywordKey(arr[i], lower, isWord)
  {
    if arr == [] then [] else KeywordKeys(Init(arr), lower, isWord) + [KeywordKey(Last(arr), lower, isWord)]
  }

  function CleanedRewrites(arr: seq<Text>, max: nat, lower: Text -> Text): seq<Text> {
    Take(Distinct(RewriteKeys(arr, lower)), max)
  }

  function CleanedKeywords(arr: seq<Text>, max: int, lower: Text -> Text, isWord: Text -> bool): seq<Text> {
    Take(Distinct(KeywordKeys(arr, lower, isWord)), if max < 0 then 0 else if max > 5 then 5 else max)
  }

  method CleanList(arr: seq<Text>, max: nat, lower: Text -> Text) returns (list: seq<Text>)
    ensures list == CleanedRewrites(arr, max, lower)
  {
    var uniq: seq<Text> := [];  // a JavaScript Set, in insertion order
    for i := 0 to |arr|
      invariant uniq == Distinct(RewriteKeys(arr[..i], lower))
    {
      assert Init(arr[..i + 1]) == arr[..i] && Last(arr[..i + 1]) == arr[i];
      RewriteKeysStep(arr, i, lower);
      var t := Trim(arr[i]);
      if |t| == 0 {
        continue;
      }
      if |t| < 2 {
        continue;
      }
      if t in STOPWORDS {
        continue;
      }
      var key := lower(t);
      if key in uniq {
        continue;
      }
      uniq := uniq + [key];
    }
    assert arr[..|arr|] == arr;
    list := Take(uniq, max);
  }

  method CleanKeywords(arr: seq<Text>, max: int, lower: Text -> Text, isWord: Text -> bool) returns (list: seq<Text>)
    ensures list == CleanedKeywords(arr, max, lower, isWord)
  {
    var uniq: seq<Text> := [];
    for i := 0 to |arr|
      invariant uniq == Distinct(KeywordKeys(arr[..i], lower, isWord))
    {
      KeywordKeysStep(arr, i, lower, isWord);
      var raw := Trim(arr[i]);
      if raw == [] {
        continue;
      }
      if HasSpace(raw) {
        continue;
      }
      if |raw| < 2 {
        continue;
      }
      var token := StripZeroWidth(raw);
      if token == [] || !isWord(token) {
        continue;
      }
      var key := lower(token);
      if key in STOPWORDS {
        continue;
      }
      if key in uniq {
        continue;
      }
      uniq := uniq + [key];
    }
    assert arr[..|arr|] == arr;
    list := Take(uniq, if max < 0 then 0 else if max > 5 then 5 else max);
  }

  lemma DistinctStep(keys: seq<Option<Text>>, k: Option<Text>)
    ensures Distinct(keys + [k])
         == if k.None? || k.value in Distinct(keys) then Distinct(keys) else Distinct(keys) + [k.value]
  {
    assert Init(keys + [k]) == keys && Last(keys + [k]) == k;
  }

  lemma RewriteKeysStep(arr: seq<Text>, i: nat, lower: Text -> Text)
    requires i < |arr|
    ensures Distinct(RewriteKeys(arr[..i + 1], lower))
         == var k, before := RewriteKey(arr[i], lower), Distinct(RewriteKeys(arr[..i], lower));
            if k.None? || k.value in before then before else before + [k.value]
  {
    assert Init(arr[..i + 1]) == arr[..i] && Last(arr[..i + 1]) == arr[i];
    DistinctStep(RewriteKeys(arr[..i], lower), RewriteKey(arr[i], lower));
  }

  lemma KeywordKeysStep(arr: seq<Text>, i: nat, lower: Text -> Text, isWord: Text -> bool)
    requires i < |arr|
    ensures Distinct(KeywordKeys(arr[..i + 1], lower, isWord))
         == var k, before := KeywordKey(arr[i], lower, isWord), Distinct(KeywordKeys(arr[..i], lower, isWord));
            if k.None? || k.value in before then before else before + [k.value]
  {
    assert Init(arr[..i + 1]) == arr[..i] && Last(arr[..i + 1]) == arr[i];
    DistinctStep(KeywordKeys(arr[..i], lower, isWord), KeywordKey(arr[i], lower, isWord));
  }

  /** The list holds exactly the keys, none twice. */
  lemma {:induction false} DistinctKeys(keys: seq<Option<Text>>)
    ensures NoRepeats(Distinct(keys))
    ensures forall t :: t in Distinct(keys) <==> Some(t) in keys
  {
    if keys != [] {
      var init, last := Init(keys), Last(keys);
      DistinctKeys(init);
      forall t ensures Some(t) in keys <==> Some(t) in init || last == Some(t) {
        assert keys == init + [last];
      }
    }
  }

  ghost predicate FirstAt(keys: seq<Option<Text>>, t: Text, n: nat) {
    && n < |keys| && keys[n] == Some(t)
    && forall m :: 0 <= m < n ==> keys[m] != Some(t)
  }

  /** The list is in order of first appearance. */
  lemma {:induction false} DistinctInOrder(keys: seq<Option<Text>>, i: nat, j: nat, m: nat, n: nat)
    requires i < j < |Distinct(keys)|
    requires FirstAt(keys, Distinct(keys)[i], m) && FirstAt(keys, Distinct(keys)[j], n)
    ensures m < n
  {
    var init, last := Init(keys), Last(keys);
    DistinctKeys(init);
    var before := Distinct(init);
    assert before[i] in before;
    var m' :| 0 <= m' < |init| && init[m'] == Some(before[i]);
    assert m <= m' < |init|;
    if j < |before| {
      assert before[j] in before;
      var n' :| 0 <= n' < |init| && init[n'] == Some(before[j]);
      DistinctInOrder(init, i, j, m, n);
    } else {
      assert last !in init;
      assert forall k :: 0 <= k < |init| ==> init[k] in init;
    }
  }

  /** A list of its own keys is kept as it is. */
  lemma {:induction false} DistinctFixed(keys: seq<Option<Text>>, list: seq<Text>)
    requires |keys| == |list| && NoRepeats(list)
    requires forall i :: 0 <= i < |list| ==> keys[i] == Some(list[i])
    ensures Distinct(keys) == list
  {
    if keys != [] {
      DistinctFixed(Init(keys), Init(list));
      assert list == Init(list) + [Last(list)];
      forall i | 0 <= i < |Init(list)| ensures Init(list)[i] != Last(list) {
        assert list[i] != list[|list| - 1];
      }
    }
  }

  lemma {:induction false} Stripped(s: Text)
    ensures !HasZeroWidth(StripZeroWidth(s)) && (HasSpace(StripZeroWidth(s)) ==> HasSpace(s))
    ensures !HasZeroWidth(s) ==> StripZeroWidth(s) == s
  {
    if s != [] {
      var rest := s[1..];
      Stripped(rest);
      assert forall i :: 0 <= i < |rest| ==> rest[i] == s[i + 1];
      var r := StripZeroWidth(s);
      if !IsZeroWidth(s[0]) {
        assert forall i :: 0 < i < |r| ==> r[i] == StripZeroWidth(rest)[i - 1];
      }
    }
  }

  /** A cleaned rewrite cleans to itself. */
  lemma RewriteKeyFixed(s: Text, lower: Text -> Text)
    requires IsLowering(lower) && RewriteKey(s, lower).Some?
    ensures var k := RewriteKey(s, lower).value; RewriteKey(k, lower) == Some(k)
  {
    hide Trim;
    var t := Trim(s);
    TrimNormal(s);
    TrimNormal(lower(t));
  }

  /** What a cleaned keyword must still be to last: two units at least, and of the allowed letters. */
  predicate Lasts(k: Text, isWord: Text -> bool) {
    |k| >= 2 && isWord(k)
  }

  /** A cleaned keyword cleans to itself if and only if it lasts; otherwise it is dropped. */
  lemma KeywordKeyFixed(s: Text, lower: Text -> Text, isWord: Text -> bool)
    requires IsLowering(lower) && KeywordKey(s, lower, isWord).Some?
    ensures var k := KeywordKey(s, lower, isWord).value;
            KeywordKey(k, lower, isWord) == (if Lasts(k, isWord) then Some(k) else None)
  {
    hide Trim, StripZeroWidth;
    var raw := Trim(s);
    var token := StripZeroWidth(raw);
    var k := lower(token);
    Stripped(raw);
    assert !HasSpace(k) && !HasZeroWidth(k);
    TrimNormal(k);
    Stripped(k);
  }

  /** How many entries the list has before the i-th keyword. */
  function DistinctBefore(arr: seq<Text>, i: nat, lower: Text -> Text, isWord: Text -> bool): nat
    requires i <= |arr|
  {
    |Distinct(KeywordKeys(arr[..i], lower, isWord))|
  }

  /** The i-th keyword is accepted, and the list not yet full when it comes. */
  predicate IsAcceptedInTime(arr: seq<Text>, i: nat, max: nat, lower: Text -> Text, isWord: Text -> bool)
    requires i < |arr|
  {
    KeywordKey(arr[i], lower, isWord).Some? && DistinctBefore(arr, i, lower, isWord) < max
  }

  /** Every keyword that is accepted before the list is full lasts once it is stripped and lowered. */
  ghost predicate AllLast(arr: seq<Text>, max: nat, lower: Text -> Text, isWord: Text -> bool) {
    forall i :: 0 <= i < |arr| && IsAcceptedInTime(arr, i, max, lower, isWord) ==>
                  Lasts(lower(StripZeroWidth(Trim(arr[i]))), isWord)
  }

  lemma {:induction false} KeysPrefix(arr: seq<Text>, i: nat, lower: Text -> Text, isWord: Text -> bool)
    requires i <= |arr|
    ensures KeywordKeys(arr, lower, isWord)[..i] == KeywordKeys(arr[..i], lower, isWord)
  {
  }

  lemma {:induction false} DistinctPrefix(keys: seq<Option<Text>>, i: nat)
    requires i <= |keys|
    ensures Distinct(keys[..i]) <= Distinct(keys)
  {
    if i < |keys| {
      DistinctPrefix(Init(keys), i);
      assert Init(keys)[..i] == keys[..i];
    } else {
      assert keys[..i] == keys;
    }
  }

  /** An accepted entry is kept by the cut exactly if the list was not full when it came, or it was there already. */
  lemma KeptWhileNotFull(keys: seq<Option<Text>>, i: nat, max: nat)
    requires i < |keys| && keys[i].Some? && |Distinct(keys[..i])| < max
    ensures keys[i].value in Take(Distinct(keys), max)
  {
    DistinctPrefix(keys, i + 1);
    assert keys[..i + 1] == keys[..i] + [keys[i]];
    DistinctStep(keys[..i], keys[i]);
    hide Distinct;
    var upTo := Distinct(keys[..i + 1]);
    assert keys[i].value in upTo;
    var q :| 0 <= q < |upTo| && upTo[q] == keys[i].value;
    assert Take(Distinct(keys), max)[q] == Distinct(keys)[q] == upTo[q];
  }

  /** Each kept entry came first when the list was not full. */
  lemma {:induction false} KeptCameEarly(keys: seq<Option<Text>>, q: nat) returns (i: nat)
    requires q < |Distinct(keys)|
    ensures i < |keys| && keys[i] == Some(Distinct(keys)[q]) && |Distinct(keys[..i])| == q
  {
    var init := Init(keys);
    if q < |Distinct(init)| {
      i := KeptCameEarly(init, q);
      assert init[..i] == keys[..i];
    } else {
      i := |keys| - 1;
      assert keys[..i] == init;
    }
  }

  /** So the kept keywords all last exactly if those accepted in time do. */
  lemma KeptKeywordsLast(arr: seq<Text>, max: nat, lower: Text -> Text, isWord: Text -> bool)
    requires max <= 5
    ensures (forall k :: k in CleanedKeywords(arr, max, lower, isWord) ==> Lasts(k, isWord))
            <==> AllLast(arr, max, lower, isWord)
  {
    var keys, list := KeywordKeys(arr, lower, isWord), CleanedKeywords(arr, max, lower, isWord);
    hide Distinct, StripZeroWidth, Trim, Lasts;
    if forall k :: k in list ==> Lasts(k, isWord) {
      forall i | 0 <= i < |arr| && IsAcceptedInTime(arr, i, max, lower, isWord)
        ensures Lasts(lower(StripZeroWidth(Trim(arr[i]))), isWord)
      {
        KeysPrefix(arr, i, lower, isWord);
        KeptWhileNotFull(keys, i, max);
      }
    }
    if AllLast(arr, max, lower, isWord) {
      forall k | k in list ensures Lasts(k, isWord) {
        var q :| 0 <= q < |list| && list[q] == k;
        var i := KeptCameEarly(keys, q);
        KeysPrefix(arr, i, lower, isWord);
        assert IsAcceptedInTime(arr, i, max, lower, isWord);
      }
    }
  }

  lemma StrippedLetter()
    ensures StripZeroWidth([0x61, 0x200B]) == [0x61] && StripZeroWidth([0x61]) == [0x61]
  {
    var word, letter: Text := [0x61, 0x200B], [0x61];
    assert word[1..] == [0x200B] && word[1..][1..] == [] && letter[1..] == [];
    assert StripZeroWidth(word[1..]) == [];
  }

  /** A keyword of a letter and a zero-width space is kept as one letter, which a second pass drops. */
  lemma OneLetterIsDroppedLater(lower: Text -> Text, isWord: Text -> bool)
    requires IsLowering(lower) && isWord([0x61]) && lower([0x61]) == [0x61]
    ensures CleanedKeywords([[0x61, 0x200B]], 5, lower, isWord) == [[0x61]]
    ensures CleanedKeywords([[0x61]], 5, lower, isWord) == []
  {
    hide CleanedKeywords, Trim, StripZeroWidth, STOPWORDS, IsLowering;
    var word, letter: Text := [0x61, 0x200B], [0x61];
    TrimNormal(word);
    TrimNormal(letter);
    StrippedLetter();
    NoStopword(letter);
    OneKeyword(word, lower, isWord);
    OneKeyword(letter, lower, isWord);
  }

  lemma NoStopword(w: Text)
    requires exists i :: 0 <= i < |w| && !IsHangul(w[i])
    ensures w !in STOPWORDS
  {
    hide STOPWORDS;
    if w in STOPWORDS {
      StopwordsAreHangul(w);
      assert false;
    }
  }

  lemma PlainKeyword(s: Text, lower: Text -> Text, isWord: Text -> bool)
    requires |s| >= 2 && !HasSpace(s) && !HasZeroWidth(s)
    ensures KeywordKey(s, lower, isWord) == if isWord(s) && lower(s) !in STOPWORDS then Some(lower(s)) else None
  {
    hide Trim, StripZeroWidth, STOPWORDS;
    TrimNormal(s);
    Stripped(s);
  }

  /** `İa` lowers to three units, the second of which is no letter; a second pass drops them. */
  lemma DottedIIsDroppedLater(lower: Text -> Text, isWord: Text -> bool)
    requires IsLowering(lower) && isWord([0x130, 0x61])
    requires lower([0x130, 0x61]) == [0x69, 0x307, 0x61] && !isWord([0x69, 0x307, 0x61])
    ensures CleanedKeywords([[0x130, 0x61]], 5, lower, isWord) == [[0x69, 0x307, 0x61]]
    ensures CleanedKeywords([[0x69, 0x307, 0x61]], 5, lower, isWord) == []
  {
    hide KeywordKey, CleanedKeywords, STOPWORDS;
    var word, lowered: Text := [0x130, 0x61], [0x69, 0x307, 0x61];
    PlainKeyword(word, lower, isWord);
    PlainKeyword(lowered, lower, isWord);
    OneKeyword(word, lower, isWord);
    OneKeyword(lowered, lower, isWord);
  }

  lemma OneKeyword(s: Text, lower: Text -> Text, isWord: Text -> bool)
    ensures CleanedKeywords([s], 5, lower, isWord)
         == match KeywordKey(s, lower, isWord) case Some(k) => [k] case None => []
  {
    assert Init([s]) == [] && Last([s]) == s;
    var keys := KeywordKeys([s], lower, isWord);
    assert keys == [] + [KeywordKey(s, lower, isWord)];
    DistinctStep([], KeywordKey(s, lower, isWord));
  }

  lemma StopwordsAreHangul(w: Text)
    requires w in STOPWORDS
    ensures forall i :: 0 <= i < |w| ==> IsHangul(w[i])
  {
  }

  lemma AsciiTwice(s: Text)
    ensures LowerAscii(LowerAscii(s)) == LowerAscii(s)
  {
    hide LowerAscii;
  }

  lemma AsciiClasses(s: Text)
    ensures IsTrimmed(s) ==> IsTrimmed(LowerAscii(s))
    ensures HasSpace(LowerAscii(s)) ==> HasSpace(s)
    ensures HasZeroWidth(LowerAscii(s)) ==> HasZeroWidth(s)
  {
    hide LowerAscii;
    var r := LowerAscii(s);
    forall i | 0 <= i < |s| ensures (IsSpace(r[i]) <==> IsSpace(s[i])) && (IsZeroWidth(r[i]) <==> IsZeroWidth(s[i])) {
    }
  }

  lemma AsciiStopwords(s: Text)
    ensures LowerAscii(s) in STOPWORDS ==> LowerAscii(s) == s
  {
    hide LowerAscii, STOPWORDS;
    if LowerAscii(s) in STOPWORDS {
      StopwordsAreHangul(LowerAscii(s));
    }
  }

  /** Lowering the letters of ASCII is such a lowering. */
  lemma AsciiLowers()
    ensures IsLowering(LowerAscii)
  {
    hide LowerAscii, STOPWORDS, IsTrimmed, HasSpace, HasZeroWidth;
    forall s: Text
      ensures LowerAscii(LowerAscii(s)) == LowerAscii(s)
      ensures IsTrimmed(s) ==> IsTrimmed(LowerAscii(s))
      ensures HasSpace(LowerAscii(s)) ==> HasSpace(s)
      ensures HasZeroWidth(LowerAscii(s)) ==> HasZeroWidth(s)
      ensures LowerAscii(s) in STOPWORDS ==> LowerAscii(s) == s
    {
      AsciiTwice(s);
      AsciiClasses(s);
      AsciiStopwords(s);
    }
  }

  // The whole plan

  function ClampInt(n: int, lo: int, hi: int): (r: int)
    requires lo <= hi
    ensures lo <= r <= hi && (lo <= n <= hi ==> r == n)
  {
    if n < lo then lo else if n > hi then hi else n
  }

  function NormalWeights(w: Weights): Weights {
    var sum := w.chunk + w.title;
    if sum > 0.0 then Weights(w.chunk / sum, w.title / sum) else Weights(0.7, 0.3)
  }

  /** `n || 5`, then the bounds. */
  function Bounded(n: int, hi: int): (r: int)
    requires hi >= 5
    ensures 1 <= r <= hi && (1 <= n <= hi ==> r == n)
  {
    ClampInt(if n == 0 then 5 else n, 1, hi)
  }

  function NormalTime(time: Option<TimeFilter>, day: int): Option<TimeFilter> {
    if time.None? then None
    else
      match Resolve(time.value, day)
      case Some(r) => Some(Absolute(Some(r.from), Some(r.to)))
      case None => None
  }

  function NormalHybrid(h: Hybrid): Hybrid {
    Hybrid(h.enabled, h.bias, Some(Alpha(Some(h.bias), h.alpha)),
           ClampInt(h.maxRewrites, 0, 4), ClampInt(ClampInt(h.maxKeywords, 0, 8), 0, 5))
  }

  /** The normalised plan; `day` is the Korean day of the request. */
  function Normalized(p: Plan, day: int, lower: Text -> Text, isWord: Text -> bool): Plan {
    var h := NormalHybrid(p.hybrid);
    Plan(p.mode, Bounded(p.topK, 10), Clamp01(p.threshold), NormalWeights(p.weights),
         CleanedRewrites(p.rewrites, h.maxRewrites, lower), CleanedKeywords(p.keywords, h.maxKeywords, lower, isWord),
         h, NormalTime(p.time, day), p.sort, Bounded(p.limit, 20))
  }

  method NormalizePlan(plan: Plan, now: int, lower: Text -> Text, isWord: Text -> bool) returns (normPlan: Plan)
    ensures normPlan == Normalized(plan, KstRanges.KstDay(now), lower, isWord)
  {
    hide Resolve, CleanedRewrites, CleanedKeywords;
    var sum := plan.weights.chunk + plan.weights.title;
    var weights := if sum > 0.0 then Weights(plan.weights.chunk / sum, plan.weights.title / sum) else Weights(0.7, 0.3);
    normPlan := plan.(weights := weights);
    if plan.time.Some? {
      var abs := ToAbsoluteRangeKst(plan.time.value, now);
      if abs.Some? {
        normPlan := normPlan.(time := Some(Absolute(Some(abs.value.from), Some(abs.value.to))));
      } else {
        normPlan := normPlan.(time := None);
      }
    }
    normPlan := normPlan.(topK := Bounded(plan.topK, 10));
    normPlan := normPlan.(limit := Bounded(plan.limit, 20));
    normPlan := normPlan.(threshold := Clamp01(plan.threshold));
    var maxRewrites := ClampInt(plan.hybrid.maxRewrites, 0, 4);
    var maxKeywords := ClampInt(ClampInt(plan.hybrid.maxKeywords, 0, 8), 0, 5);
    var alpha := Clamp01(plan.hybrid.alpha.GetOr(GetPreset(Some(plan.hybrid.bias)).alpha));
    normPlan := normPlan.(
      hybrid := Hybrid(plan.hybrid.enabled, plan.hybrid.bias, Some(alpha), maxRewrites, maxKeywords));
    var rewrites := CleanList(plan.rewrites, maxRewrites, lower);
    normPlan := normPlan.(rewrites := rewrites);
    var keywords := CleanKeywords(plan.keywords, maxKeywords, lower, isWord);
    normPlan := normPlan.(keywords := keywords);
  }

  /** What the later stages may rely on. */
  ghost predicate IsNormal(p: Plan) {
    && p.weights.chunk + p.weights.title == 1.0
    && 0.0 <= p.weights.chunk <= 1.0 && 0.0 <= p.weights.title <= 1.0
    && 1 <= p.topK <= 10 && 1 <= p.limit <= 20 && 0.0 <= p.threshold <= 1.0
    && p.hybrid.alpha.Some? && 0.0 <= p.hybrid.alpha.value <= 1.0
    && 0 <= p.hybrid.maxRewrites <= 4 && 0 <= p.hybrid.maxKeywords <= 5
    && |p.rewrites| <= p.hybrid.maxRewrites && NoRepeats(p.rewrites)
    && |p.keywords| <= p.hybrid.maxKeywords && NoRepeats(p.keywords)
    && (p.time.Some? ==> p.time.value.Absolute? && p.time.value.from.Some? && p.time.value.to.Some?)
  }

  lemma WeightsNormal(w: Weights)
    requires w.chunk >= 0.0 && w.title >= 0.0
    ensures var n := NormalWeights(w);
            && n.chunk >= 0.0 && n.title >= 0.0 && n.chunk + n.title == 1.0 && NormalWeights(n) == n
  {
    if w.chunk + w.title > 0.0 {
      Shares(w.chunk, w.title, w.chunk + w.title);
    }
  }

  lemma Shares(x: real, y: real, sum: real)
    requires x >= 0.0 && y >= 0.0 && sum == x + y && sum > 0.0
    ensures x / sum >= 0.0 && y / sum >= 0.0 && x / sum + y / sum == 1.0
  {
    assert x / sum + y / sum == (x + y) / sum;
  }

  lemma TakeKeeps(s: seq<Text>, n: nat)
    requires NoRepeats(s)
    ensures NoRepeats(Take(s, n)) && |Take(s, n)| <= n
    ensures forall x :: x in Take(s, n) ==> x in s
  {
  }

  /** Normalising any plan reaches the normal form. */
  lemma NormalizedIsNormal(p: Plan, day: int, lower: Text -> Text, isWord: Text -> bool)
    requires p.weights.chunk >= 0.0 && p.weights.title >= 0.0
    ensures IsNormal(Normalized(p, day, lower, isWord))
  {
    hide Resolve, Distinct, RewriteKeys, KeywordKeys, NormalWeights, Alpha;
    WeightsNormal(p.weights);
    AlphaRange(p.hybrid);
    var h := NormalHybrid(p.hybrid);
    DistinctKeys(RewriteKeys(p.rewrites, lower));
    DistinctKeys(KeywordKeys(p.keywords, lower, isWord));
    TakeKeeps(Distinct(RewriteKeys(p.rewrites, lower)), h.maxRewrites);
    TakeKeeps(Distinct(KeywordKeys(p.keywords, lower, isWord)), h.maxKeywords);
  }

  lemma AlphaRange(h: Hybrid)
    ensures 0.0 <= Alpha(Some(h.bias), h.alpha) <= 1.0
    ensures Alpha(Some(h.bias), Some(Alpha(Some(h.bias), h.alpha))) == Alpha(Some(h.bias), h.alpha)
  {
  }

  lemma RewritesFixed(arr: seq<Text>, max: nat, lower: Text -> Text)
    requires IsLowering(lower)
    ensures var list := CleanedRewrites(arr, max, lower); CleanedRewrites(list, max, lower) == list
  {
    var keys := RewriteKeys(arr, lower);
    var list := CleanedRewrites(arr, max, lower);
    hide Distinct, RewriteKey, IsLowering;
    DistinctKeys(keys);
    TakeKeeps(Distinct(keys), max);
    forall i | 0 <= i < |list| ensures RewriteKey(list[i], lower) == Some(list[i]) {
      assert Some(list[i]) in keys;
      var j :| 0 <= j < |keys| && keys[j] == Some(list[i]);
      RewriteKeyFixed(arr[j], lower);
    }
    DistinctFixed(RewriteKeys(list, lower), list);
  }

  lemma KeywordsFixed(arr: seq<Text>, max: nat, lower: Text -> Text, isWord: Text -> bool)
    requires IsLowering(lower) && max <= 5
    ensures var list := CleanedKeywords(arr, max, lower, isWord);
            CleanedKeywords(list, max, lower, isWord) == list <==> forall k :: k in list ==> Lasts(k, isWord)
  {
    var keys := KeywordKeys(arr, lower, isWord);
    var list := CleanedKeywords(arr, max, lower, isWord);
    hide Distinct, KeywordKey, IsLowering, Lasts;
    DistinctKeys(keys);
    TakeKeeps(Distinct(keys), max);
    var again := KeywordKeys(list, lower, isWord);
    forall i | 0 <= i < |list| ensures again[i] == if Lasts(list[i], isWord) then Some(list[i]) else None {
      assert Some(list[i]) in keys;
      var j :| 0 <= j < |keys| && keys[j] == Some(list[i]);
      KeywordKeyFixed(arr[j], lower, isWord);
    }
    if forall k :: k in list ==> Lasts(k, isWord) {
      DistinctFixed(again, list);
    } else {
      var k :| k in list && !Lasts(k, isWord);
      DistinctKeys(again);
      TakeKeeps(Distinct(again), max);
      forall i | 0 <= i < |again| ensures again[i] != Some(k) {
        assert again[i] == if Lasts(list[i], isWord) then Some(list[i]) else None;
      }
      assert Some(k) !in again;
    }
  }

  /**
   * Normalising twice, even on another day, changes nothing, if and only if every keyword of the plan that is
   * accepted before the list is full lasts; in particular when none has a single unit left without its
   * zero-width units, and all are words when lowered.
   */
  lemma NormalizeTwice(p: Plan, day: int, later: int, lower: Text -> Text, isWord: Text -> bool)
    requires p.weights.chunk >= 0.0 && p.weights.title >= 0.0 && IsLowering(lower)
    ensures var n, max := Normalized(p, day, lower, isWord), NormalHybrid(p.hybrid).maxKeywords;
            Normalized(n, later, lower, isWord) == n <==> AllLast(p.keywords, max, lower, isWord)
    ensures (forall s :: s in p.keywords ==>
                           |StripZeroWidth(Trim(s))| != 1 && isWord(lower(StripZeroWidth(Trim(s))))) ==>
              AllLast(p.keywords, NormalHybrid(p.hybrid).maxKeywords, lower, isWord)
  {
    SimplyLast(p.keywords, NormalHybrid(p.hybrid).maxKeywords, lower, isWord);
    hide Resolve, CleanedRewrites, CleanedKeywords, NormalWeights, Alpha, IsLowering, AllLast, Trim, StripZeroWidth;
    var h := NormalHybrid(p.hybrid);
    WeightsNormal(p.weights);
    AlphaRange(p.hybrid);
    RewritesFixed(p.rewrites, h.maxRewrites, lower);
    KeywordsFixed(p.keywords, h.maxKeywords, lower, isWord);
    KeptKeywordsLast(p.keywords, h.maxKeywords, lower, isWord);
    if p.time.Some? && Resolve(p.time.value, day).Some? {
      ResolvedIsStable(p.time.value, day, later);
    }
  }

  lemma SimplyLast(arr: seq<Text>, max: nat, lower: Text -> Text, isWord: Text -> bool)
    requires IsLowering(lower)
    ensures (forall s :: s in arr ==>
                           |StripZeroWidth(Trim(s))| != 1 && isWord(lower(StripZeroWidth(Trim(s))))) ==>
              AllLast(arr, max, lower, isWord)
  {
    hide Trim, StripZeroWidth, DistinctBefore;
    forall i | 0 <= i < |arr| ensures arr[i] in arr {
    }
  }
}
