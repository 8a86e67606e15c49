/** Turning raw question records of any shape into canonical questions
    (src/utils/normalizeQuestion.ts). */
module Normalize {
  import opened Basics
  import opened Text

  /** A raw value as it arrives from the question catalog: any JSON value, or a missing field. */
  datatype Json =
    | Undefined
    | Null
    | Bool(b: bool)
    | Num(n: int)
    | Str(s: string)
    | Arr(items: seq<Json>)
    | Obj(fields: map<string, Json>)

  /** The canonical question the normaliser returns. `tip` is absent when blank. */
  datatype Question = Question(
    id: string,
    konu: string,
    zorluk: string,
    tip: Option<string>,
    soruMetni: string,
    secenekler: seq<string>,
    dogruCevap: string,
    dogruCevapIndex: int,
    aciklama: string)

  /** The correct index names a real option, and that option is the correct answer's text. */
  predicate AnswerIndexValid(q: Question)
  {
    0 <= q.dogruCevapIndex < |q.secenekler| && q.secenekler[q.dogruCevapIndex] == q.dogruCevap
  }

  // ---------------------------------------------------------------- coercions

  /** Strings are trimmed, numbers become their decimal text, everything else becomes "". */
  function ToTrimmedString(v: Json): (r: string)
    ensures IsTrimmed(r)
    ensures v.Str? ==> r == Trim(v.s)
    ensures v.Num? ==> r == IntToDecimal(v.n)
    ensures !v.Str? && !v.Num? ==> r == []
  {
    match v
    case Str(s) => Trim(s)
    case Num(n) => TrimOfTrimmed(IntToDecimal(n)); Trim(IntToDecimal(n))
    case _ => []
  }

  /** Coercing the text a coercion produced changes nothing more. */
  lemma ReCoercionIsIdentity(v: Json)
    ensures ToTrimmedString(Str(ToTrimmedString(v))) == ToTrimmedString(v)
  {
    TrimOfTrimmed(ToTrimmedString(v));
  }

  /** The coerced text, or `fallback` when that text is blank. */
  function ToStringOr(v: Json, fallback: string): (r: string)
    ensures r == ToTrimmedString(v) || r == fallback
    ensures ToTrimmedString(v) != [] ==> r == ToTrimmedString(v)
    ensures fallback != [] ==> r != []
    ensures IsTrimmed(fallback) ==> IsTrimmed(r)
  {
    var t := ToTrimmedString(v);
    if t != [] then t else fallback
  }

  function IsNonEmpty(s: string): bool { |s| > 0 }

  function TrimmedItems(items: seq<Json>): (r: seq<string>)
    ensures |r| == |items|
  {
    seq(|items|, k requires 0 <= k < |items| => ToTrimmedString(items[k]))
  }

  /** The option list: [] unless the value is an array; otherwise each entry coerced, blanks
      dropped, order kept (see SanitizeCharacterization and SanitizeKeepsOrder). */
  function SanitizeOptions(v: Json): (r: seq<string>)
    ensures !v.Arr? ==> r == []
    ensures forall k :: 0 <= k < |r| ==> r[k] != []
  {
    if v.Arr? then Filter(TrimmedItems(v.items), IsNonEmpty) else []
  }

  /** Each sanitised option is the trimmed, non-blank text of some entry, and every entry with
      non-blank text appears among them. */
  lemma SanitizeCharacterization(items: seq<Json>)
    ensures |SanitizeOptions(Arr(items))| <= |items|
    ensures forall k :: 0 <= k < |SanitizeOptions(Arr(items))| ==>
              IsCoercedItem(items, SanitizeOptions(Arr(items))[k]) && IsTrimmed(SanitizeOptions(Arr(items))[k])
    ensures forall k :: 0 <= k < |items| && ToTrimmedString(items[k]) != [] ==> ToTrimmedString(items[k]) in SanitizeOptions(Arr(items))
  {
    KeptComeFromItems(items, SanitizeOptions(Arr(items)));
  }

  /** `x` is the coerced text of one of `items`. */
  ghost predicate IsCoercedItem(items: seq<Json>, x: string)
  {
    exists j :: 0 <= j < |items| && x == ToTrimmedString(items[j])
  }

  lemma KeptComeFromItems(items: seq<Json>, r: seq<string>)
    requires r == Filter(TrimmedItems(items), IsNonEmpty)
    ensures forall k :: 0 <= k < |r| ==> IsCoercedItem(items, r[k]) && r[k] != [] && IsTrimmed(r[k])
    ensures forall k :: 0 <= k < |items| && ToTrimmedString(items[k]) != [] ==> ToTrimmedString(items[k]) in r
  {
    KeptAreCoerced(items, r);
    var all := TrimmedItems(items);
    forall k | 0 <= k < |items| && ToTrimmedString(items[k]) != []
      ensures ToTrimmedString(items[k]) in r
    {
      assert all[k] == ToTrimmedString(items[k]);
      assert all[k] in all && IsNonEmpty(all[k]);
    }
  }

  lemma KeptAreCoerced(items: seq<Json>, r: seq<string>)
    requires r == Filter(TrimmedItems(items), IsNonEmpty)
    ensures forall k :: 0 <= k < |r| ==> IsCoercedItem(items, r[k]) && r[k] != [] && IsTrimmed(r[k])
  {
    var all := TrimmedItems(items);
    forall k | 0 <= k < |r|
      ensures IsCoercedItem(items, r[k]) && r[k] != [] && IsTrimmed(r[k])
    {
      assert r[k] in all;
      var j :| 0 <= j < |all| && all[j] == r[k];
      CoercedAt(items, j);
    }
  }

  /** Entry `j` of the coerced list is the coerced text of input entry `j`, hence trimmed. */
  lemma CoercedAt(items: seq<Json>, j: int)
    requires 0 <= j < |items|
    ensures IsCoercedItem(items, TrimmedItems(items)[j]) && IsTrimmed(TrimmedItems(items)[j])
  {
    assert TrimmedItems(items)[j] == ToTrimmedString(items[j]);
  }

  /** Sanitising keeps the surviving entries in their input order: it distributes over concatenation. */
  lemma SanitizeKeepsOrder(a: seq<Json>, b: seq<Json>)
    ensures SanitizeOptions(Arr(a + b)) == SanitizeOptions(Arr(a)) + SanitizeOptions(Arr(b))
  {
    var ta, tb, tab := TrimmedItems(a), TrimmedItems(b), TrimmedItems(a + b);
    forall k | 0 <= k < |tab|
      ensures tab[k] == (ta + tb)[k]
    {
      if k < |a| {
        assert (a + b)[k] == a[k];
      } else {
        assert (a + b)[k] == b[k - |a|];
      }
    }
    assert tab == ta + tb;
    FilterAppend(TrimmedItems(a), TrimmedItems(b), IsNonEmpty);
  }

  // ---------------------------------------------------------------- field access

  /** `source.key` on the record, where anything but an object has no fields. */
  function Field(raw: Json, key: string): (v: Json)
    ensures raw.Obj? && key in raw.fields ==> v == raw.fields[key]
    ensures !raw.Obj? || key !in raw.fields ==> v.Undefined?
  {
    if raw.Obj? && key in raw.fields then raw.fields[key] else Undefined
  }

  /** JavaScript's `??` lets a value through unless it is null or missing. */
  predicate IsNullish(v: Json)
  {
    v.Undefined? || v.Null?
  }

  /** JavaScript's `a ?? b`. */
  function Coalesce(a: Json, b: Json): (r: Json)
    ensures !IsNullish(a) ==> r == a
    ensures IsNullish(a) ==> r == b
  {
    if a.Undefined? || a.Null? then b else a
  }

  /** `dogruCevapIndex` when it is a number, otherwise -1. */
  function RawIndex(v: Json): (i: int)
    ensures v.Num? ==> i == v.n
    ensures !v.Num? ==> i < 0
  {
    if v.Num? then v.n else -1
  }

  // ---------------------------------------------------------------- answer resolution

  function MatchesIgnoringCase(answer: string): string -> bool
  {
    o => EqualsIgnoringCase(o, answer)
  }

  function IsText(x: string): string -> bool
  {
    o => o == x
  }

  /** `findIndex`: the first position whose element satisfies `p`, or -1. */
  function IndexWhere<T>(s: seq<T>, p: T -> bool): (r: int)
    ensures -1 <= r < |s|
    ensures r >= 0 ==> p(s[r]) && forall k :: 0 <= k < r ==> !p(s[k])
    ensures r == -1 ==> forall k :: 0 <= k < |s| ==> !p(s[k])
  {
    if s == [] then -1
    else if p(s[0]) then 0
    else
      var r := IndexWhere(s[1..], p);
      if r == -1 then -1 else r + 1
  }

  /** The three-step resolution of the correct option (see AnswerResolutionOrder). */
  function ResolveAnswerIndex(options: seq<string>, answer: string, indexRaw: int): (r: int)
    ensures options == [] ==> r == -1
    ensures options != [] ==> 0 <= r < |options|
  {
    var found := IndexWhere(options, MatchesIgnoringCase(answer));
    var r := if found == -1 && 0 <= indexRaw < |options| then indexRaw else found;
    if r == -1 && |options| > 0 then 0 else r
  }

  /** The resolution order: the first option equal to the answer text ignoring case; else the raw
      index when it is in range; else 0 when there is any option. */
  lemma AnswerResolutionOrder(options: seq<string>, answer: string, indexRaw: int)
    ensures (exists k :: 0 <= k < |options| && EqualsIgnoringCase(options[k], answer)) ==>
              var r := ResolveAnswerIndex(options, answer, indexRaw);
              EqualsIgnoringCase(options[r], answer) && forall k :: 0 <= k < r ==> !EqualsIgnoringCase(options[k], answer)
    ensures (forall k :: 0 <= k < |options| ==> !EqualsIgnoringCase(options[k], answer)) && options != [] ==>
              ResolveAnswerIndex(options, answer, indexRaw) == (if 0 <= indexRaw < |options| then indexRaw else 0)
  {
    var found := IndexWhere(options, MatchesIgnoringCase(answer));
    if exists k :: 0 <= k < |options| && EqualsIgnoringCase(options[k], answer) {
      var k :| 0 <= k < |options| && EqualsIgnoringCase(options[k], answer);
      assert MatchesIgnoringCase(answer)(options[k]);
      assert found >= 0;
    }
  }

  /** The clamp `max(0, min(index, len - 1))`, or 0 without options. */
  function SafeIndex(index: int, len: nat): (r: nat)
    ensures len > 0 ==> r < len
    ensures len > 0 && 0 <= index < len ==> r == index
  {
    if len > 0 then Max(0, Min(index, len - 1)) else 0
  }

  // ---------------------------------------------------------------- seeded shuffle

  /** The swap partner the shuffle draws for position `i`, with the linear-congruential step
      `(seed * (i + 1) * 9301 + 49297) mod 233280` scaled to `[0, i + 1)`. */
  function SwapPartner(seed: nat, i: nat): (j: nat)
    ensures j <= i
  {
    var x := (seed * (i + 1) * 9301 + 49297) % 233280;
    PartnerBound(x, i);
    x * (i + 1) / 233280
  }

  lemma PartnerBound(x: nat, i: nat)
    requires x < 233280
    ensures x * (i + 1) / 233280 <= i
  {
    assert x * (i + 1) <= 233279 * (i + 1);
    assert x * (i + 1) < 233280 * (i + 1);
  }

  function Swap<T>(s: seq<T>, i: nat, j: nat): (r: seq<T>)
    requires i < |s| && j < |s|
    ensures |r| == |s|
    ensures r[i] == s[j] && r[j] == s[i]
    ensures forall k :: 0 <= k < |s| && k != i && k != j ==> r[k] == s[k]
  {
    s[i := s[j]][j := s[i]]
  }

  /** The shuffle loop from position `i` down to 1. */
  function ShuffleDown<T>(s: seq<T>, seed: nat, i: nat): (r: seq<T>)
    requires i < |s|
    ensures |r| == |s|
    ensures forall k :: i < k < |s| ==> r[k] == s[k]
    decreases i
  {
    if i == 0 then s
    else ShuffleDown(Swap(s, i, SwapPartner(seed, i)), seed, i - 1)
  }

  /** The whole Fisher–Yates pass, from the last position down. */
  function Shuffled<T>(s: seq<T>, seed: nat): (r: seq<T>)
    ensures |r| == |s|
    ensures |s| <= 1 ==> r == s
  {
    if s == [] then s else ShuffleDown(s, seed, |s| - 1)
  }

  /** The seed: the sum of the id's UTF-16 code units. */
  function SeedOf(id: string): (seed: nat)
    ensures id == [] ==> seed == 0
    ensures forall k :: 0 <= k < |id| && id[k] as int < 0x1_0000 ==> id[k] as int <= seed
  {
    CodeUnitTotal(id)
  }

  lemma SwapPermutes<T>(s: seq<T>, i: nat, j: nat)
    requires i < |s| && j < |s|
    ensures multiset(Swap(s, i, j)) == multiset(s)
  {
    var t := s[i := s[j]];
    assert multiset(t) == multiset(s) - multiset{s[i]} + multiset{s[j]};
    assert t[j] == s[j];
    assert multiset(t[j := s[i]]) == multiset(t) - multiset{t[j]} + multiset{s[i]};
  }

  lemma {:induction false} ShuffleDownPermutes<T>(s: seq<T>, seed: nat, i: nat)
    requires i < |s|
    ensures multiset(ShuffleDown(s, seed, i)) == multiset(s)
    decreases i
  {
    if i > 0 {
      var t := Swap(s, i, SwapPartner(seed, i));
      SwapPermutes(s, i, SwapPartner(seed, i));
      ShuffleDownPermutes(t, seed, i - 1);
    }
  }

  /** The shuffle only swaps: its output is a permutation of its input. */
  lemma ShufflePermutes<T>(s: seq<T>, seed: nat)
    ensures multiset(Shuffled(s, seed)) == multiset(s)
  {
    if s != [] {
      ShuffleDownPermutes(s, seed, |s| - 1);
    }
  }

  /** `t` is `s` read through the positions `p`. */
  ghost predicate ReadsThrough<T>(t: seq<T>, p: seq<int>, s: seq<T>)
  {
    |t| == |p| && forall k :: 0 <= k < |p| ==> 0 <= p[k] < |s| && t[k] == s[p[k]]
  }

  lemma {:induction false} ShuffleDownTracksPositions<T>(t: seq<T>, p: seq<int>, s: seq<T>, seed: nat, i: nat)
    requires i < |t| && ReadsThrough(t, p, s)
    ensures ReadsThrough(ShuffleDown(t, seed, i), ShuffleDown(p, seed, i), s)
    decreases i
  {
    if i > 0 {
      var j := SwapPartner(seed, i);
      ShuffleDownTracksPositions(Swap(t, i, j), Swap(p, i, j), s, seed, i - 1);
    }
  }

  /** The positions 0, 1, ..., n - 1 in shuffled order. */
  function ShufflePositions(n: nat, seed: nat): (p: seq<int>)
    ensures |p| == n
  {
    Shuffled(seq(n, k => k), seed)
  }

  /** The rearrangement depends only on the seed and the number of options: every list of the
      same length is rearranged through the same positions. */
  lemma ShuffleDependsOnlyOnSeedAndCount<T>(s: seq<T>, seed: nat)
    ensures ReadsThrough(Shuffled(s, seed), ShufflePositions(|s|, seed), s)
  {
    if s != [] {
      ShuffleDownTracksPositions(s, seq(|s|, k => k), s, seed, |s| - 1);
    }
  }

  /** The shuffle as the source runs it, in place on an array. */
  method ShuffleInPlace(a: array<string>, seed: nat)
    modifies a
    ensures a[..] == Shuffled(old(a[..]), seed)
  {
    if a.Length == 0 {
      return;
    }
    var i := a.Length - 1;
    while i > 0
      invariant 0 <= i < a.Length
      invariant ShuffleDown(a[..], seed, i) == Shuffled(old(a[..]), seed)
    {
      var j := SwapPartner(seed, i);
      ghost var before := a[..];
      a[i], a[j] := a[j], a[i];
      assert a[..] == Swap(before, i, j);
      i := i - 1;
    }
  }

  // ---------------------------------------------------------------- one question

  /** The options as presented and the index of the correct text among them. */
  datatype Presentation = Presentation(options: seq<string>, index: int)

  /** Shuffle the sanitised options with `seed` and locate `correct` again; without options the
      list is `[correct]`, or empty when `correct` is blank, and the index is `fallback`. */
  function Present(sanitized: seq<string>, correct: string, fallback: int, seed: nat): (p: Presentation)
    ensures correct in sanitized ==> multiset(p.options) == multiset(sanitized)
    ensures correct in sanitized ==> 0 <= p.index < |p.options| && p.options[p.index] == correct
    ensures sanitized == [] ==> p.options == (if correct != [] then [correct] else []) && p.index == fallback
  {
    ShufflePermutes(sanitized, seed);
    assert correct in sanitized ==> correct in multiset(Shuffled(sanitized, seed));
    Locate(Shuffled(sanitized, seed), correct, fallback)
  }

  /** The already shuffled options (or `[correct]`, or nothing, when there are none) and the
      position of `correct` among them, or `fallback` when it is absent. */
  function Locate(shuffled: seq<string>, correct: string, fallback: int): (p: Presentation)
    ensures correct in shuffled ==> 0 <= p.index < |p.options| && p.options[p.index] == correct
  {
    var newIndex := IndexWhere(shuffled, IsText(correct));
    Presentation(
      if |shuffled| > 0 then shuffled else if correct != [] then [correct] else [],
      if newIndex >= 0 then newIndex else fallback)
  }

  /** `normalizeQuestion(raw, fallbackIndex)` as a value. */
  function Normalized(raw: Json, fallbackIndex: nat): (q: Question)
    ensures q.id != [] && q.konu != [] && q.zorluk != []
    ensures q.secenekler != [] ==> AnswerIndexValid(q)
  {
    var shown := ShownOf(raw, fallbackIndex);
    CorrectIsShown(raw, fallbackIndex);
    Question(
      IdOf(raw, fallbackIndex), KonuOf(raw), ZorlukOf(raw), TipOf(raw), ToStringOr(Field(raw, "soruMetni"), ""),
      shown.options, CorrectTextOf(raw), shown.index, ToStringOr(Field(raw, "aciklama"), ""))
  }

  /** Whenever options are shown, the index points at the correct text among them. */
  lemma CorrectIsShown(raw: Json, fallbackIndex: nat)
    ensures var shown := ShownOf(raw, fallbackIndex);
            shown.options != [] ==> 0 <= shown.index < |shown.options| && shown.options[shown.index] == CorrectTextOf(raw)
  {
    var sanitized, correct, safe := SanitizedOf(raw), CorrectTextOf(raw), SafeIndexOf(raw);
    if sanitized != [] {
      assert correct == sanitized[safe];
    }
    PresentShowsCorrect(sanitized, correct, safe, SeedOf(IdOf(raw, fallbackIndex)));
  }

  /** The presented index finds the correct text whenever it is among the options, and also when
      there were no options and the fallback index is 0. */
  lemma PresentShowsCorrect(sanitized: seq<string>, correct: string, fallback: int, seed: nat)
    requires sanitized != [] ==> correct in sanitized
    requires sanitized == [] ==> fallback == 0
    ensures var p := Present(sanitized, correct, fallback, seed);
            p.options != [] ==> 0 <= p.index < |p.options| && p.options[p.index] == correct
  {
  }

  /** The topic: the first of `konu`, `kategori`, `category` that is neither null nor missing,
      coerced, with "Genel" when that is blank. */
  function KonuOf(raw: Json): (konu: string)
    ensures konu != [] && IsTrimmed(konu)
  {
    ToStringOr(Coalesce(Coalesce(Field(raw, "konu"), Field(raw, "kategori")), Field(raw, "category")), "Genel")
  }

  function ZorlukOf(raw: Json): (zorluk: string)
    ensures zorluk != [] && IsTrimmed(zorluk)
  {
    ToStringOr(Field(raw, "zorluk"), "Belirtilmedi")
  }

  /** The question type is kept only when it coerces to non-blank text. */
  function TipOf(raw: Json): (tip: Option<string>)
    ensures tip.Some? ==> tip.value != [] && IsTrimmed(tip.value)
    ensures !Field(raw, "tip").Str? && !Field(raw, "tip").Num? ==> tip.None?
  {
    var tip := ToTrimmedString(Field(raw, "tip"));
    if tip != [] then Some(tip) else None
  }

  function IdOf(raw: Json, fallbackIndex: nat): (id: string)
    ensures id != []
    ensures Field(raw, "id").Str? && !AllWhitespace(Field(raw, "id").s) ==> id == Trim(Field(raw, "id").s)
  {
    ToStringOr(Field(raw, "id"), "auto-" + NatToDecimal(fallbackIndex))
  }

  /** The clamped resolved index into the sanitised options. */
  function SafeIndexOf(raw: Json): nat
  {
    SafeIndex(ResolvedIndexOf(raw), |SanitizedOf(raw)|)
  }

  /** The correct text: the chosen option, or the raw answer text when there are no options. */
  function CorrectTextOf(raw: Json): (correct: string)
    ensures SanitizedOf(raw) != [] ==> correct in SanitizedOf(raw)
    ensures SanitizedOf(raw) == [] ==> correct == AnswerTextOf(raw)
  {
    if SafeIndexOf(raw) < |SanitizedOf(raw)| then SanitizedOf(raw)[SafeIndexOf(raw)] else AnswerTextOf(raw)
  }

  function ShownOf(raw: Json, fallbackIndex: nat): Presentation
  {
    Present(SanitizedOf(raw), CorrectTextOf(raw), SafeIndexOf(raw), SeedOf(IdOf(raw, fallbackIndex)))
  }

  /** The options the normaliser starts from. */
  function SanitizedOf(raw: Json): seq<string>
  {
    SanitizeOptions(Field(raw, "secenekler"))
  }

  function AnswerTextOf(raw: Json): string
  {
    ToTrimmedString(Field(raw, "dogruCevap"))
  }

  function ResolvedIndexOf(raw: Json): int
  {
    ResolveAnswerIndex(SanitizedOf(raw), AnswerTextOf(raw), RawIndex(Field(raw, "dogruCevapIndex")))
  }

  /** The three-step resolution as the source writes it, reassigning one variable. */
  method ResolveAnswerIndexSteps(options: seq<string>, answer: string, indexRaw: int) returns (index: int)
    ensures index == ResolveAnswerIndex(options, answer, indexRaw)
  {
    index := IndexWhere(options, MatchesIgnoringCase(answer));
    if index == -1 && 0 <= indexRaw < |options| {
      index := indexRaw;
    }
    if index == -1 && |options| > 0 {
      index := 0;
    }
  }

  /** A fresh array holding `s` (the spread `[...secenekler]`). */
  method ToArray(s: seq<string>) returns (a: array<string>)
    ensures fresh(a) && a[..] == s
  {
    a := new string[|s|](k requires 0 <= k < |s| => s[k]);
  }

  /** The method form of the normaliser: the three-step resolution reassigns one variable and the
      shuffle swaps array elements in place. */
  method NormalizeQuestion(raw: Json, fallbackIndex: nat) returns (q: Question)
    ensures q == Normalized(raw, fallbackIndex)
  {
    var secenekler := SanitizeOptions(Field(raw, "secenekler"));
    var id := IdOf(raw, fallbackIndex);
    var dogruCevapRaw := ToTrimmedString(Field(raw, "dogruCevap"));
    var dogruCevapIndexRaw := RawIndex(Field(raw, "dogruCevapIndex"));

    var dogruCevapIndex := ResolveAnswerIndexSteps(secenekler, dogruCevapRaw, dogruCevapIndexRaw);
    var safeIndex := SafeIndex(dogruCevapIndex, |secenekler|);
    var dogruCevap := if safeIndex < |secenekler| then secenekler[safeIndex] else dogruCevapRaw;
    assert dogruCevap == CorrectTextOf(raw);

    var shuffledOptions := ToArray(secenekler);
    ShuffleInPlace(shuffledOptions, SeedOf(id));
    var newCorrectIndex := IndexWhere(shuffledOptions[..], IsText(dogruCevap));
    var options := if shuffledOptions.Length > 0 then shuffledOptions[..] else if dogruCevap != [] then [dogruCevap] else [];
    var index := if newCorrectIndex >= 0 then newCorrectIndex else safeIndex;
    assert Presentation(options, index) == Locate(shuffledOptions[..], dogruCevap, safeIndex);
    assert ShownOf(raw, fallbackIndex) == Locate(Shuffled(secenekler, SeedOf(id)), dogruCevap, safeIndex);

    q := Question(
      id, KonuOf(raw), ZorlukOf(raw), TipOf(raw), ToStringOr(Field(raw, "soruMetni"), ""),
      options, dogruCevap, index, ToStringOr(Field(raw, "aciklama"), ""));
  }

  // ---------------------------------------------------------------- properties of one question

  /** With options left after sanitising, the clamp never moves the resolved index: the correct
      text is the option the three-step resolution chose, the shown options are a permutation of
      the sanitised ones, and the correct index points at the correct text. */
  lemma ResolvedOptionIsShown(raw: Json, fallbackIndex: nat)
    requires SanitizedOf(raw) != []
    ensures Normalized(raw, fallbackIndex).dogruCevap == SanitizedOf(raw)[ResolvedIndexOf(raw)]
    ensures multiset(Normalized(raw, fallbackIndex).secenekler) == multiset(SanitizedOf(raw))
    ensures AnswerIndexValid(Normalized(raw, fallbackIndex))
  {
  }

  /** Without surviving options the list is the raw answer text alone, or empty, and the index is 0. */
  lemma NoOptionsFallback(raw: Json, fallbackIndex: nat)
    requires SanitizedOf(raw) == []
    ensures Normalized(raw, fallbackIndex).dogruCevap == AnswerTextOf(raw)
    ensures Normalized(raw, fallbackIndex).secenekler == (if AnswerTextOf(raw) != [] then [AnswerTextOf(raw)] else [])
    ensures Normalized(raw, fallbackIndex).dogruCevapIndex == 0
  {
  }

  /** A missing or blank id becomes `auto-<fallbackIndex>`; a present one is kept, trimmed. */
  lemma IdFallback(raw: Json, fallbackIndex: nat)
    ensures ToTrimmedString(Field(raw, "id")) == [] ==> Normalized(raw, fallbackIndex).id == "auto-" + NatToDecimal(fallbackIndex)
    ensures ToTrimmedString(Field(raw, "id")) != [] ==> Normalized(raw, fallbackIndex).id == ToTrimmedString(Field(raw, "id"))
  {
  }

  /** Reference reading of a `??` chain over fields: the first of `keys` whose field is neither
      null nor missing, or the last field as it is when every earlier one is nullish. */
  function FirstPresent(raw: Json, keys: seq<string>): Json
  {
    if keys == [] then Undefined
    else if |keys| == 1 || !IsNullish(Field(raw, keys[0])) then Field(raw, keys[0])
    else FirstPresent(raw, keys[1..])
  }

  /** The topic is the first of `konu`, `kategori`, `category` that is neither null nor missing,
      coerced and trimmed, with "Genel" when that text is blank or every field is nullish. A present
      field stops the chain even when it is blank or not a string. */
  lemma KonuResolution(raw: Json, fallbackIndex: nat, s: string)
    ensures Normalized(raw, fallbackIndex).konu == ToStringOr(FirstPresent(raw, ["konu", "kategori", "category"]), "Genel")
    ensures !IsNullish(Field(raw, "konu")) ==>
              Normalized(raw, fallbackIndex).konu == ToStringOr(Field(raw, "konu"), "Genel")
    ensures IsNullish(Field(raw, "konu")) && !IsNullish(Field(raw, "kategori")) ==>
              Normalized(raw, fallbackIndex).konu == ToStringOr(Field(raw, "kategori"), "Genel")
    ensures IsNullish(Field(raw, "konu")) && IsNullish(Field(raw, "kategori")) ==>
              Normalized(raw, fallbackIndex).konu == ToStringOr(Field(raw, "category"), "Genel")
    ensures IsNullish(Field(raw, "konu")) && IsNullish(Field(raw, "kategori")) && IsNullish(Field(raw, "category")) ==>
              Normalized(raw, fallbackIndex).konu == "Genel"
    ensures Field(raw, "konu") == Str(s) ==>
              Normalized(raw, fallbackIndex).konu == (if AllWhitespace(s) then "Genel" else Trim(s))
    ensures !IsNullish(Field(raw, "konu")) && !Field(raw, "konu").Str? && !Field(raw, "konu").Num? ==>
              Normalized(raw, fallbackIndex).konu == "Genel"
  {
    assert Normalized(raw, fallbackIndex).konu == KonuOf(raw);
    KonuIsFirstPresent(raw);
    TrimEmptyIff(s);
  }

  /** `KonuOf`'s nested coalescing agrees with the reference reading of the chain. */
  lemma KonuIsFirstPresent(raw: Json)
    ensures KonuOf(raw) == ToStringOr(FirstPresent(raw, ["konu", "kategori", "category"]), "Genel")
  {
    TopicChain(raw);
  }

  lemma TopicChain(raw: Json)
    ensures FirstPresent(raw, ["konu", "kategori", "category"])
         == Coalesce(Coalesce(Field(raw, "konu"), Field(raw, "kategori")), Field(raw, "category"))
  {
    var keys := ["konu", "kategori", "category"];
    assert keys[0] == "konu" && keys[1..] == ["kategori", "category"];
    assert keys[1..][0] == "kategori" && keys[1..][1..] == ["category"];
    assert FirstPresent(raw, ["category"]) == Field(raw, "category");
    assert FirstPresent(raw, ["kategori", "category"])
        == Coalesce(Field(raw, "kategori"), Field(raw, "category"));
  }

  /** The difficulty is the `zorluk` field coerced and trimmed, with "Belirtilmedi" when it is
      missing, null, not a string or number, or blank. */
  lemma ZorlukResolution(raw: Json, fallbackIndex: nat, s: string)
    ensures ToTrimmedString(Field(raw, "zorluk")) == [] ==> Normalized(raw, fallbackIndex).zorluk == "Belirtilmedi"
    ensures ToTrimmedString(Field(raw, "zorluk")) != [] ==>
              Normalized(raw, fallbackIndex).zorluk == ToTrimmedString(Field(raw, "zorluk"))
    ensures !Field(raw, "zorluk").Str? && !Field(raw, "zorluk").Num? ==>
              Normalized(raw, fallbackIndex).zorluk == "Belirtilmedi"
    ensures Field(raw, "zorluk") == Str(s) ==>
              Normalized(raw, fallbackIndex).zorluk == (if AllWhitespace(s) then "Belirtilmedi" else Trim(s))
  {
    TrimEmptyIff(s);
  }

  /** The same id and the same options give the same presented order, whatever else differs. */
  lemma SameIdSameOrder(raw1: Json, index1: nat, raw2: Json, index2: nat)
    requires Normalized(raw1, index1).id == Normalized(raw2, index2).id
    requires SanitizedOf(raw1) == SanitizedOf(raw2) != []
    ensures Normalized(raw1, index1).secenekler == Normalized(raw2, index2).secenekler
  {
  }

  // ---------------------------------------------------------------- the catalog

  /** Every record normalised with its input position as the fallback index. */
  function NormalizedAll(items: seq<Json>): (r: seq<Question>)
    ensures |r| == |items|
    ensures forall k :: 0 <= k < |r| && r[k].secenekler != [] ==> AnswerIndexValid(r[k])
  {
    seq(|items|, i requires 0 <= i < |items| => Normalized(items[i], i))
  }

  /** A question survives the catalog filter when its id, stem and options are all non-empty. */
  function IsUsable(q: Question): bool
  {
    |q.id| > 0 && |q.soruMetni| > 0 && |q.secenekler| > 0
  }

  /** `normalizeQuestionArray`: [] unless the input is an array; otherwise the usable questions,
      in input order, each with a valid correct index. */
  function NormalizeQuestionArray(input: Json): (r: seq<Question>)
    ensures !input.Arr? ==> r == []
    ensures forall k :: 0 <= k < |r| ==> IsUsable(r[k]) && AnswerIndexValid(r[k])
    ensures input.Arr? ==> IsSubsequence(r, NormalizedAll(input.items))
  {
    if input.Arr? then
      var all := NormalizedAll(input.items);
      FilterIsSubsequence(all, IsUsable);
      UsableAreValid(all, Filter(all, IsUsable));
      Filter(all, IsUsable)
    else []
  }

  lemma UsableAreValid(all: seq<Question>, r: seq<Question>)
    requires forall k :: 0 <= k < |all| && all[k].secenekler != [] ==> AnswerIndexValid(all[k])
    requires r == Filter(all, IsUsable)
    ensures forall k :: 0 <= k < |r| ==> IsUsable(r[k]) && AnswerIndexValid(r[k])
  {
    forall k | 0 <= k < |r|
      ensures IsUsable(r[k]) && AnswerIndexValid(r[k])
    {
      assert r[k] in all;
      var j :| 0 <= j < |all| && all[j] == r[k];
    }
  }

  /** Every usable question of the input, at its input position, is kept. */
  lemma UsableQuestionsKept(items: seq<Json>, i: nat)
    requires i < |items| && IsUsable(Normalized(items[i], i))
    ensures Normalized(items[i], i) in NormalizeQuestionArray(Arr(items))
  {
    assert NormalizedAll(items)[i] == Normalized(items[i], i);
  }
}
