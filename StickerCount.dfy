/**
 * `calculateMinStickers` of map/sticker-count.go: how many "facebook"
 * sticker sets are needed to spell the letters of a word. Characters that
 * no sticker provides are ignored.
 */
module StickerCount {

  /** The source's `facebookMap`: how many of each letter one sticker set provides. */
  const FacebookMap: map<char, int> := map['f' := 1, 'a' := 1, 'c' := 1, 'e' := 1, 'b' := 1, 'o' := 2, 'k' := 1]

  /** The letters of one sticker set, each once. */
  const StickerLetters: seq<char> := ['f', 'a', 'c', 'e', 'b', 'o', 'k']

  /** How many of `c` one set provides; 0 when no sticker has it. */
  function PerSet(c: char): (n: int)
    ensures n == 0 || n == 1 || n == 2
    ensures n > 0 <==> c in StickerLetters
  {
    match c
    case 'o' => 2
    case 'f' | 'a' | 'c' | 'e' | 'b' | 'k' => 1
    case _ => 0
  }

  /** `PerSet` is the source's map: its keys are the sticker letters and its values their counts per set. */
  lemma PerSetIsFacebookMap(c: char)
    ensures c in FacebookMap <==> PerSet(c) > 0
    ensures c in FacebookMap ==> FacebookMap[c] == PerSet(c)
  {
  }

  /** The number of occurrences of `c` in `w`. */
  function Count(w: string, c: char): nat
  {
    multiset(w)[c]
  }

  /** `math.Ceil(a / b)` on exact integers. */
  function CeilDiv(a: int, b: int): (r: int)
    requires b > 0
    ensures (r - 1) * b < a <= r * b
  {
    (a + b - 1) / b
  }

  /** `n` sticker sets provide every sticker letter as often as `w` uses it. */
  ghost predicate Enough(w: string, n: int)
  {
    forall c :: PerSet(c) > 0 ==> Count(w, c) <= n * PerSet(c)
  }

  /** Ceiling division against the two per-set counts that occur: `ceil(a / b) <= n` exactly when `a <= n * b`. */
  lemma CeilDivBound(a: int, b: int, n: int)
    requires a >= 0 && (b == 1 || b == 2)
    ensures CeilDiv(a, b) <= n <==> a <= n * b
    ensures CeilDiv(a, b) >= 0 && a <= CeilDiv(a, b) * b
  {
  }

  /** More sets are never fewer than enough. */
  lemma EnoughMonotone(w: string, n: int, m: int)
    requires Enough(w, n) && n <= m
    ensures Enough(w, m)
  {
    forall c | PerSet(c) > 0 ensures Count(w, c) <= m * PerSet(c) {
      assert PerSet(c) == 1 || PerSet(c) == 2;
    }
  }

  /** The largest per-letter need over `letters`: the fold of the source's second loop. */
  function MaxNeed(w: string, letters: seq<char>): (r: int)
    requires forall c :: c in letters ==> PerSet(c) > 0
    ensures r >= 0
    ensures forall c :: c in letters ==> CeilDiv(Count(w, c), PerSet(c)) <= r
    ensures r == 0 || exists c :: c in letters && r == CeilDiv(Count(w, c), PerSet(c))
    decreases |letters|
  {
    if letters == [] then 0
    else
      var c := letters[0];
      var rest := MaxNeed(w, letters[1..]);
      CeilDivBound(Count(w, c), PerSet(c), 0);
      var need := CeilDiv(Count(w, c), PerSet(c));
      assert forall x :: x in letters <==> x == c || x in letters[1..];
      if need > rest then need else rest
  }

  /** The fold's maximum is enough sets. */
  lemma MaxNeedIsEnough(w: string, n: int)
    requires n == MaxNeed(w, StickerLetters)
    ensures Enough(w, n)
  {
    forall c | PerSet(c) > 0 ensures Count(w, c) <= n * PerSet(c) {
      assert c in StickerLetters;
      CeilDivBound(Count(w, c), PerSet(c), n);
    }
  }

  /** With one set fewer than the fold's maximum, some letter runs short. */
  lemma MaxNeedIsMinimal(w: string, n: int)
    requires n == MaxNeed(w, StickerLetters) && n > 0
    ensures !Enough(w, n - 1)
  {
    var c :| c in StickerLetters && n == CeilDiv(Count(w, c), PerSet(c));
    OneSetFewerFallsShort(w, c, n);
  }

  /** A letter that needs exactly `n > 0` sets is short with `n - 1`. */
  lemma OneSetFewerFallsShort(w: string, c: char, n: int)
    requires PerSet(c) > 0 && n > 0 && n == CeilDiv(Count(w, c), PerSet(c))
    ensures !Enough(w, n - 1)
  {
    CeilDivBound(Count(w, c), PerSet(c), n - 1);
  }

  /**
   * The number of sticker sets the word needs: enough sets to provide every
   * letter it uses, and with one set fewer some letter would run short.
   */
  function MinStickers(w: string): (n: int)
    ensures n >= 0 && Enough(w, n)
    ensures n > 0 ==> !Enough(w, n - 1)
  {
    var n := MaxNeed(w, StickerLetters);
    MaxNeedIsEnough(w, n);
    if n > 0 then MaxNeedIsMinimal(w, n); n else n
  }

  /** Enough-and-minimal determines the count. */
  lemma MinimalIsUnique(w: string, a: int, b: int)
    requires a >= 0 && Enough(w, a) && (a > 0 ==> !Enough(w, a - 1))
    requires b >= 0 && Enough(w, b) && (b > 0 ==> !Enough(w, b - 1))
    ensures a == b
  {
    if a < b {
      EnoughMonotone(w, a, b - 1);
    } else if b < a {
      EnoughMonotone(w, b, a - 1);
    }
  }

  /** The result is at least the count of each one-per-set letter and at least half the count of 'o', rounded up. */
  lemma LowerBounds(w: string)
    ensures forall c :: PerSet(c) == 1 ==> MinStickers(w) >= Count(w, c)
    ensures MinStickers(w) >= CeilDiv(Count(w, 'o'), 2)
  {
    CeilDivBound(Count(w, 'o'), 2, MinStickers(w));
  }

  /** Appending a character no sticker provides (a space, an upper-case or another letter) changes nothing. */
  lemma IgnoresOtherCharacters(w: string, x: char)
    requires PerSet(x) == 0
    ensures MinStickers(w + [x]) == MinStickers(w)
  {
    var w' := w + [x];
    assert multiset(w') == multiset(w) + multiset{x};
    assert forall c :: PerSet(c) > 0 ==> Count(w', c) == Count(w, c);
    assert Enough(w', MinStickers(w));
    assert MinStickers(w) > 0 ==> !Enough(w', MinStickers(w) - 1);
    MinimalIsUnique(w', MinStickers(w'), MinStickers(w));
  }

  /** The empty word, or a word with no sticker letter, needs no set. */
  lemma NoStickerLettersNeedNothing(w: string)
    requires forall i :: 0 <= i < |w| ==> PerSet(w[i]) == 0
    ensures MinStickers(w) == 0
  {
    forall c | PerSet(c) > 0 ensures Count(w, c) == 0 {
      assert c !in w;
    }
    assert Enough(w, 0);
    MinimalIsUnique(w, MinStickers(w), 0);
  }

  /** `k` sets are the least that spell a word with these letter counts. */
  lemma ExactlyEnough(w: string, k: int, short: char)
    requires k > 0 && PerSet(short) > 0 && k == CeilDiv(Count(w, short), PerSet(short))
    requires forall c :: c in StickerLetters ==> CeilDiv(Count(w, c), PerSet(c)) <= k
    ensures MinStickers(w) == k
  {
    forall c | PerSet(c) > 0 ensures Count(w, c) <= k * PerSet(c) {
      CeilDivBound(Count(w, c), PerSet(c), k);
    }
    OneSetFewerFallsShort(w, short, k);
    MinimalIsUnique(w, k, MinStickers(w));
  }

  /** The source's first sample: "coffee kebab" needs 3 sets (three 'e'). */
  lemma CoffeeKebabNeedsThree()
    ensures MinStickers("coffee kebab") == 3
  {
    var w := "coffee kebab";
    var m := multiset(w);
    assert m['f'] == 2;
    assert m['a'] == 1;
    assert m['c'] == 1;
    assert m['e'] == 3;
    assert m['b'] == 2;
    assert m['o'] == 1;
    assert m['k'] == 1;
    ThreeSetsForTheseCounts(w);
  }

  /** Any word with the sticker-letter counts of "coffee kebab" needs 3 sets. */
  lemma ThreeSetsForTheseCounts(w: string)
    requires Count(w, 'f') == 2 && Count(w, 'a') == 1 && Count(w, 'c') == 1 && Count(w, 'e') == 3
    requires Count(w, 'b') == 2 && Count(w, 'o') == 1 && Count(w, 'k') == 1
    ensures MinStickers(w) == 3
  {
    ExactlyEnough(w, 3, 'e');
  }

  /** The source's second sample: "book" needs 1 set (two 'o' fit in one). */
  lemma BookNeedsOne()
    ensures MinStickers("book") == 1
  {
    var w := "book";
    var m := multiset(w);
    assert m['f'] == 0;
    assert m['a'] == 0;
    assert m['c'] == 0;
    assert m['e'] == 0;
    assert m['b'] == 1;
    assert m['o'] == 2;
    assert m['k'] == 1;
    ExactlyEnough(w, 1, 'o');
  }

  /** The source's third sample: "ffacebook" needs 2 sets (two 'f'). */
  lemma FfacebookNeedsTwo()
    ensures MinStickers("ffacebook") == 2
  {
    var w := "ffacebook";
    var m := multiset(w);
    assert m['f'] == 2;
    assert m['a'] == 1;
    assert m['c'] == 1;
    assert m['e'] == 1;
    assert m['b'] == 1;
    assert m['o'] == 2;
    assert m['k'] == 1;
    ExactlyEnough(w, 2, 'f');
  }

  /** What the second loop leaves, over the counts of the first, is the number of sets the word needs. */
  lemma FoldIsMinStickers(word: string, wordMap: map<char, int>, n: int)
    requires forall c :: c in wordMap ==> wordMap[c] == Count(word, c)
    requires forall c :: c !in wordMap ==> Count(word, c) == 0
    requires n >= 0
    requires forall c :: c in wordMap && PerSet(c) > 0 ==> CeilDiv(wordMap[c], PerSet(c)) <= n
    requires n == 0 || exists c :: c in wordMap && PerSet(c) > 0 && n == CeilDiv(wordMap[c], PerSet(c))
    ensures n == MinStickers(word)
  {
    forall c | PerSet(c) > 0 ensures Count(word, c) <= n * PerSet(c) {
      CeilDivBound(Count(word, c), PerSet(c), n);
    }
    if n > 0 {
      var c :| c in wordMap && PerSet(c) > 0 && n == CeilDiv(wordMap[c], PerSet(c));
      CeilDivBound(Count(word, c), PerSet(c), n - 1);
    }
    MinimalIsUnique(word, n, MinStickers(word));
  }

  /** The source's two loops: count every character, then fold the maximum need over the sticker letters found. */
  method CalculateMinStickers(word: string) returns (numberOfSticker: int)
    ensures numberOfSticker == MinStickers(word)
  {
    var wordMap: map<char, int> := map[];
    var i := 0;
    while i < |word|
      invariant 0 <= i <= |word|
      invariant forall c :: c in wordMap ==> wordMap[c] == Count(word[..i], c)
      invariant forall c :: c !in wordMap ==> Count(word[..i], c) == 0
    {
      assert word[..i + 1] == word[..i] + [word[i]];
      var ch := word[i];
      wordMap := wordMap[ch := (if ch in wordMap then wordMap[ch] else 0) + 1];
      i := i + 1;
    }
    assert word[..|word|] == word;

    numberOfSticker := 0;
    var pending := wordMap.Keys;
    while pending != {}
      invariant pending <= wordMap.Keys && numberOfSticker >= 0
      invariant forall c :: c in wordMap && c !in pending && PerSet(c) > 0 ==>
                  CeilDiv(wordMap[c], PerSet(c)) <= numberOfSticker
      invariant numberOfSticker == 0 ||
                  exists c :: c in wordMap && c !in pending && PerSet(c) > 0 && numberOfSticker == CeilDiv(wordMap[c], PerSet(c))
      decreases pending
    {
      var key :| key in pending;
      PerSetIsFacebookMap(key);
      if key in FacebookMap {
        var numSticker := FacebookMap[key];
        var needed := CeilDiv(wordMap[key], numSticker);
        numberOfSticker := if numberOfSticker >= needed then numberOfSticker else needed;
      }
      pending := pending - {key};
    }

    FoldIsMinStickers(word, wordMap, numberOfSticker);
  }
}
