/**
 The rolling bloom filter (`CRollingBloomFilter` in src/bloom.h and src/bloom.cpp):
 every position holds the number of the generation that last set it, in two bits that
 live in two words, and each new generation wipes the one from three generations ago.
 */
module RollingBloom {

  import opened Powers
  import VarInt

  type Key = VarInt.Bytes

  // ----- 64-bit words, bit by bit -----

  type Word = w: seq<bool> | |w| == 64 witness seq(64, i => false)

  function And(a: Word, b: Word): Word {
    seq(64, i requires 0 <= i < 64 => a[i] && b[i])
  }

  function Or(a: Word, b: Word): Word {
    seq(64, i requires 0 <= i < 64 => a[i] || b[i])
  }

  function Xor(a: Word, b: Word): Word {
    seq(64, i requires 0 <= i < 64 => a[i] != b[i])
  }

  function Not(a: Word): Word {
    seq(64, i requires 0 <= i < 64 => !a[i])
  }

  /** `-(uint64_t)b` for a single bit `b`. */
  function Fill(b: bool): Word {
    seq(64, i => b)
  }

  /** `(uint64_t)b << bit`. */
  function Shifted(b: bool, bit: nat): Word {
    seq(64, i => i == bit && b)
  }

  /** Clearing one bit and setting it again changes that bit alone. */
  lemma SetBit(w: Word, bit: nat, b: bool)
    requires bit < 64
    ensures Or(And(w, Not(Shifted(true, bit))), Shifted(b, bit)) == w[bit := b]
  {
  }

  // ----- generations -----

  /** What decides where a key goes: the hash functions, and how many words there are. */
  datatype Layout = Layout(hash: (nat, Key) -> nat, hashFuncs: nat, words: nat, perGeneration: nat)

  ghost predicate Sound(L: Layout) {
    L.words > 0 && L.words % 2 == 0 && L.perGeneration > 0
  }

  /** The pair of words, and the bit in them, of hash function `n`. */
  function Pair(L: Layout, n: nat, key: Key): nat
    requires L.words > 0
  {
    L.hash(n, key) / 64 % L.words / 2
  }

  function Bit(L: Layout, n: nat, key: Key): nat {
    L.hash(n, key) % 64
  }

  /** The mark at a position: 0 to 3. */
  function MarkAt(data: seq<Word>, pair: nat, bit: nat): nat
    requires 2 * pair + 1 < |data| && bit < 64
  {
    (if data[2 * pair][bit] then 1 else 0) + if data[2 * pair + 1][bit] then 2 else 0
  }

  /** One of the first `count` hash functions takes the key to the position. */
  ghost predicate HitBy(L: Layout, key: Key, count: nat, pair: nat, bit: nat)
    requires L.words > 0
  {
    exists n :: 0 <= n < count && Pair(L, n, key) == pair && Bit(L, n, key) == bit
  }

  /** The insertion that last hit a position, counting from 1; 0 when there is none. */
  ghost function LastHit(L: Layout, history: seq<Key>, pair: nat, bit: nat): (i: nat)
    requires L.words > 0
    ensures i <= |history|
  {
    if history == [] then 0
    else if HitBy(L, history[|history| - 1], L.hashFuncs, pair, bit) then |history|
    else LastHit(L, history[..|history| - 1], pair, bit)
  }

  /** The generation of insertion `i`, counting insertions from 1 and generations from 0. */
  function Generation(L: Layout, i: nat): nat
    requires L.perGeneration > 0
  {
    if i == 0 then 0 else (i - 1) / L.perGeneration
  }

  /** How many of the last insertions the filter remembers: this generation and the two before it. */
  function Remembered(L: Layout, n: nat): int
    requires L.perGeneration > 0
  {
    n - L.perGeneration * (Generation(L, n) - 2)
  }

  /** The mark that a position has after a history: that of its last hit, if it is recent enough. */
  ghost function Mark(L: Layout, hit: nat, current: nat): nat
    requires L.perGeneration > 0
  {
    if hit > 0 && Generation(L, hit) + 2 >= current then Generation(L, hit) % 3 + 1 else 0
  }

  /** Wiping the marks of the generation that begins is forgetting its last-but-two. */
  lemma WipeForgets(L: Layout, hit: nat, current: nat)
    requires L.perGeneration > 0 && (hit > 0 ==> Generation(L, hit) <= current)
    ensures var m := Mark(L, hit, current);
            Mark(L, hit, current + 1) == if m == (current + 1) % 3 + 1 then 0 else m
  {
    hide Generation;
    if hit > 0 && Generation(L, hit) + 2 >= current {
      var g := Generation(L, hit);
      assert g == current || g == current - 1 || g == current - 2;
      assert (current + 1) % 3 == g % 3 <==> g == current - 2;
    }
  }

  /** A recent enough generation is one of the last insertions. */
  lemma RecentIsRemembered(L: Layout, i: nat, n: nat)
    requires L.perGeneration > 0 && 0 < i <= n
    ensures Generation(L, i) <= Generation(L, n)
    ensures Generation(L, i) + 2 >= Generation(L, n) <==> i > n - Remembered(L, n)
  {
    var e: nat, c: int := L.perGeneration, Generation(L, n);
    QuotientAtLeast(i - 1, e, c - 2);
    QuotientAtLeast(n - 1, e, Generation(L, i));
    QuotientAtLeast(i - 1, e, Generation(L, i));
  }

  lemma QuotientAtLeast(a: nat, e: nat, q: int)
    requires e > 0
    ensures a / e >= q <==> a >= e * q
  {
    var d := a / e;
    assert e * d <= a < e * d + e;
    if d >= q {
      assert e * d >= e * q by {
        Grows(e, q, d);
      }
    } else {
      Grows(e, d + 1, q);
      assert e * (d + 1) == e * d + e;
    }
  }

  lemma Grows(e: nat, x: int, y: int)
    requires x <= y
    ensures e * x <= e * y
  {
  }

  /** At least two whole generations are remembered, hence at least `2 * perGeneration` insertions. */
  lemma RemembersEnough(L: Layout, n: nat)
    requires L.perGeneration > 0 && n > 0
    ensures 2 * L.perGeneration < Remembered(L, n) <= 3 * L.perGeneration
  {
    var e := L.perGeneration;
    var c := (n - 1) / e;
    assert e * c <= n - 1 < e * c + e;
    assert e * (c - 2) == e * c - 2 * e;
  }

  /** The key is in the filter as far as the history goes: each of its positions was hit recently. */
  ghost predicate Present(L: Layout, history: seq<Key>, key: Key)
    requires Sound(L)
  {
    forall n :: 0 <= n < L.hashFuncs ==>
      LastHit(L, history, Pair(L, n, key), Bit(L, n, key)) > |history| - Remembered(L, |history|)
      && LastHit(L, history, Pair(L, n, key), Bit(L, n, key)) > 0
  }

  lemma {:induction false} LastHitIsLater(L: Layout, history: seq<Key>, i: nat, n: nat)
    requires L.words > 0 && i < |history| && n < L.hashFuncs
    ensures LastHit(L, history, Pair(L, n, history[i]), Bit(L, n, history[i])) > i
    decreases |history|
  {
    var last := |history| - 1;
    if i == last {
      assert HitBy(L, history[last], L.hashFuncs, Pair(L, n, history[i]), Bit(L, n, history[i]));
    } else {
      LastHitIsLater(L, history[..last], i, n);
    }
  }

  /** Nothing inserted recently is missing. */
  lemma RecentIsPresent(L: Layout, history: seq<Key>, i: nat)
    requires Sound(L) && i < |history| && i >= |history| - Remembered(L, |history|)
    ensures Present(L, history, history[i])
  {
    hide Remembered, LastHit, Pair, Bit;
    forall n | 0 <= n < L.hashFuncs
      ensures LastHit(L, history, Pair(L, n, history[i]), Bit(L, n, history[i])) > i
    {
      LastHitIsLater(L, history, i, n);
    }
  }

  // ----- the filter -----

  class RollingBloomFilter {
    var L: Layout
    const data: array<Word>
    var nEntriesThisGeneration: nat
    var nGeneration: nat
    ghost var history: seq<Key>

    ghost predicate Valid()
      reads this, data
    {
      && Sound(L) && data.Length == L.words
      && Counts(L, |history|, nEntriesThisGeneration, nGeneration)
      && Marked(L, history, data[..], Generation(L, |history|))
    }

    /** A filter for `nElements` keys; hash functions and size come out of floating point, so they are parameters. */
    constructor (nElements: nat, hash: (nat, Key) -> nat, hashFuncs: nat, pairs: nat)
      requires nElements > 0 && pairs > 0
      ensures Valid() && fresh(data) && history == []
      ensures L == Layout(hash, hashFuncs, 2 * pairs, (nElements + 1) / 2)
    {
      L := Layout(hash, hashFuncs, 2 * pairs, (nElements + 1) / 2);
      data := new Word[2 * pairs](i => Fill(false));
      nEntriesThisGeneration, nGeneration := 0, 1;
      history := [];
      new;
      Cleared(L, data[..]);
    }

    /** `reset`: forget everything, and draw new hash functions, which the new tweak decides. */
    method Reset(hash: (nat, Key) -> nat)
      requires Valid()
      modifies this, data
      ensures Valid() && history == [] && L == old(L).(hash := hash)
    {
      L := L.(hash := hash);
      nEntriesThisGeneration, nGeneration := 0, 1;
      var i := 0;
      while i < data.Length
        invariant 0 <= i <= data.Length && forall j :: 0 <= j < i ==> data[j] == Fill(false)
        modifies data
      {
        data[i] := Fill(false);
        i := i + 1;
      }
      history := [];
      Cleared(L, data[..]);
    }

    /** `insert`. */
    method Insert(key: Key)
      requires Valid()
      modifies this, data
      ensures Valid() && history == old(history) + [key] && L == old(L)
    {
      hide *;
      Opened();
      ghost var n := |history|;
      if nEntriesThisGeneration == L.perGeneration {
        nEntriesThisGeneration := 0;
        nGeneration := if nGeneration + 1 == 4 then 1 else nGeneration + 1;
        Wipe(Generation(L, n));
      }
      NextGeneration(L, n, old(nEntriesThisGeneration), old(nGeneration));
      nEntriesThisGeneration := nEntriesThisGeneration + 1;
      MarkAll(key);
      history := history + [key];
      Closed();
    }

    lemma Opened()
      requires Valid()
      ensures Sound(L) && data.Length == L.words > 0 && data.Length % 2 == 0 && L.perGeneration > 0
      ensures Counts(L, |history|, nEntriesThisGeneration, nGeneration)
      ensures Marked(L, history, data[..], Generation(L, |history|))
    {
    }

    lemma Closed()
      requires Sound(L) && data.Length == L.words
      requires Counts(L, |history|, nEntriesThisGeneration, nGeneration)
      requires Marked(L, history, data[..], Generation(L, |history|))
      ensures Valid()
    {
    }

    /** The wipe loop: two words at a time, with a mask that is 0 exactly where the mark is the new generation's. */
    method Wipe(ghost current: nat)
      requires Sound(L) && data.Length == L.words && nGeneration == (current + 1) % 3 + 1
      requires Marked(L, history, data[..], current) && L.perGeneration > 0 && current == Generation(L, |history|)
      modifies data
      ensures Marked(L, history, data[..], current + 1)
    {
      hide *;
      var mask1, mask2 := Fill(nGeneration % 2 == 1), Fill(nGeneration / 2 == 1);
      ghost var before := data[..];
      SoundIs(L);
      var p := 0;
      while p < data.Length
        invariant 0 <= p <= data.Length && p % 2 == 0
        invariant forall j :: p <= j < data.Length ==> data[j] == before[j]
        invariant forall j :: 0 <= j < p && j % 2 == 0 ==> WipedPair(data[j], data[j + 1], before[j], before[j + 1], nGeneration)
      {
        var p1, p2 := data[p], data[p + 1];
        var mask := Or(Xor(p1, mask1), Xor(p2, mask2));
        WipeWords(p1, p2, nGeneration);
        data[p] := And(p1, mask);
        data[p + 1] := And(p2, mask);
        p := p + 2;
      }
      WipedMarks(L, history, before, data[..], current);
    }

    /** The marking loop. */
    method MarkAll(key: Key)
      requires Sound(L) && data.Length == L.words && nGeneration == Generation(L, |history| + 1) % 3 + 1
      requires Marked(L, history, data[..], Generation(L, |history| + 1))
      modifies data
      ensures Marked(L, history + [key], data[..], Generation(L, |history| + 1))
    {
      hide *;
      ghost var before := data[..];
      SoundIs(L);
      var n := 0;
      NothingHit(L, key, before, nGeneration);
      while n < L.hashFuncs
        invariant 0 <= n <= L.hashFuncs && HitMarks(L, key, n, before, data[..], nGeneration)
      {
        var h := L.hash(n, key);
        var bit, pos := h % 64, h / 64 % data.Length;
        var lo := pos - pos % 2;
        ghost var now := data[..];
        PairIs(L, n, key);
        SetBit(data[lo], bit, nGeneration % 2 == 1);
        SetBit(data[lo + 1], bit, nGeneration / 2 == 1);
        data[lo] := Or(And(data[lo], Not(Shifted(true, bit))), Shifted(nGeneration % 2 == 1, bit));
        data[lo + 1] := Or(And(data[lo + 1], Not(Shifted(true, bit))), Shifted(nGeneration / 2 == 1, bit));
        HitStep(L, key, n, before, now, data[..], nGeneration);
        n := n + 1;
      }
      HitAll(L, history, key, before, data[..], Generation(L, |history| + 1));
    }

    /** `contains`: true exactly when every position of the key was hit by one of the remembered insertions. */
    method Contains(key: Key) returns (r: bool)
      requires Valid()
      ensures r <==> Present(L, history, key)
    {
      hide *;
      Opened();
      var n := 0;
      while n < L.hashFuncs
        invariant 0 <= n <= L.hashFuncs && forall k :: 0 <= k < n ==> Recent(L, history, Pair(L, k, key), Bit(L, k, key))
      {
        var h := L.hash(n, key);
        var bit, pos := h % 64, h / 64 % data.Length;
        var lo := pos - pos % 2;
        PairIs(L, n, key);
        RecentMark(L, history, data[..], Pair(L, n, key), Bit(L, n, key));
        if !(data[lo][bit] || data[lo + 1][bit]) {
          PresentIs(L, history, key);
          return false;
        }
        n := n + 1;
      }
      PresentIs(L, history, key);
      return true;
    }
  }

  /** The counters after `n` insertions. */
  ghost predicate Counts(L: Layout, n: nat, entries: nat, generation: nat)
    requires L.perGeneration > 0
  {
    entries == n - L.perGeneration * Generation(L, n) && generation == Generation(L, n) % 3 + 1
  }

  ghost predicate Marked(L: Layout, history: seq<Key>, data: seq<Word>, current: nat)
    requires Sound(L)
  {
    |data| == L.words &&
    forall pair, bit :: 0 <= pair && 2 * pair + 1 < |data| && 0 <= bit < 64 ==>
      MarkAt(data, pair, bit) == Mark(L, LastHit(L, history, pair, bit), current)
  }

  lemma Cleared(L: Layout, data: seq<Word>)
    requires Sound(L) && |data| == L.words && forall i :: 0 <= i < |data| ==> data[i] == Fill(false)
    ensures Counts(L, 0, 0, 1) && Marked(L, [], data, Generation(L, 0))
  {
  }

  lemma SoundIs(L: Layout)
    requires Sound(L)
    ensures L.words > 0 && L.words % 2 == 0 && L.perGeneration > 0
  {
  }

  lemma WithinGeneration(n: nat, e: nat, g: nat, entries: int)
    requires e > 0 && entries == n - e * g && (if n == 0 then g == 0 else g == (n - 1) / e)
    ensures 0 <= entries <= e
  {
    if n > 0 {
      DivParts(n - 1, e);
      assert g * e == e * g;
    }
  }

  /** One more insertion, in numbers: a generation ends when its last place is taken. */
  lemma NextQuotient(n: nat, e: nat, g: nat, entries: nat)
    requires e > 0 && entries == n - e * g && entries <= e
    ensures n / e == g + (if entries == e then 1 else 0)
    ensures n + 1 - e * (n / e) == (if entries == e then 0 else entries) + 1
  {
    if entries == e {
      assert (g + 1) * e == e * g + e;
      DivUnique(n, e, g + 1, 0);
    } else {
      DivUnique(n, e, g, entries);
    }
  }

  lemma NextGeneration(L: Layout, n: nat, entries: nat, generation: nat)
    requires Sound(L) && Counts(L, n, entries, generation)
    ensures var more := entries == L.perGeneration;
            Generation(L, n + 1) == Generation(L, n) + (if more then 1 else 0) &&
            Counts(L, n + 1, (if more then 0 else entries) + 1, if !more then generation else if generation + 1 == 4 then 1 else generation + 1) &&
            (more ==> (if generation + 1 == 4 then 1 else generation + 1) == (Generation(L, n) + 1) % 3 + 1)
  {
    NextIs(L, n);
    WithinGeneration(n, L.perGeneration, Generation(L, n), entries);
    NextQuotient(n, L.perGeneration, Generation(L, n), entries);
    hide Generation;
    NextInCycle(Generation(L, n));
  }

  lemma NextInCycle(g: nat)
    ensures (g + 1) % 3 + 1 == if g % 3 + 1 + 1 == 4 then 1 else g % 3 + 1 + 1
  {
  }

  lemma NextIs(L: Layout, n: nat)
    requires L.perGeneration > 0
    ensures Generation(L, n + 1) == n / L.perGeneration
  {
  }

  // ----- wiping -----

  ghost predicate WipedPair(a: Word, b: Word, p1: Word, p2: Word, generation: nat) {
    forall i :: 0 <= i < 64 ==>
      var own := p1[i] == (generation % 2 == 1) && p2[i] == (generation / 2 == 1);
      a[i] == (p1[i] && !own) && b[i] == (p2[i] && !own)
  }

  lemma WipeWords(p1: Word, p2: Word, generation: nat)
    ensures var mask := Or(Xor(p1, Fill(generation % 2 == 1)), Xor(p2, Fill(generation / 2 == 1)));
            WipedPair(And(p1, mask), And(p2, mask), p1, p2, generation)
  {
  }

  lemma WipedMarks(L: Layout, history: seq<Key>, before: seq<Word>, after: seq<Word>, current: nat)
    requires Sound(L) && Marked(L, history, before, current) && |after| == |before|
    requires current == Generation(L, |history|)
    requires forall j :: 0 <= j < |after| && j % 2 == 0 ==> j + 1 < |after| && WipedPair(after[j], after[j + 1], before[j], before[j + 1], (current + 1) % 3 + 1)
    ensures Marked(L, history, after, current + 1)
  {
    forall pair, bit | 0 <= pair && 2 * pair + 1 < |after| && 0 <= bit < 64
      ensures MarkAt(after, pair, bit) == Mark(L, LastHit(L, history, pair, bit), current + 1)
    {
      var j := 2 * pair;
      assert WipedPair(after[j], after[j + 1], before[j], before[j + 1], (current + 1) % 3 + 1);
      var hit := LastHit(L, history, pair, bit);
      assert MarkAt(before, pair, bit) == Mark(L, hit, current);
      if hit > 0 {
        RecentIsRemembered(L, hit, |history|);
      }
      WipeForgets(L, hit, current);
    }
  }

  // ----- marking -----

  /** After the first `n` hash functions: their positions have the new mark, all others the old one. */
  ghost predicate HitMarks(L: Layout, key: Key, n: nat, before: seq<Word>, data: seq<Word>, generation: nat)
    requires L.words > 0
  {
    |data| == |before| &&
    forall pair, bit :: 0 <= pair && 2 * pair + 1 < |data| && 0 <= bit < 64 ==>
      MarkAt(data, pair, bit) == if HitBy(L, key, n, pair, bit) then generation else MarkAt(before, pair, bit)
  }

  lemma NothingHit(L: Layout, key: Key, data: seq<Word>, generation: nat)
    requires L.words > 0
    ensures HitMarks(L, key, 0, data, data, generation)
  {
  }

  /** The words that the code addresses are those of the pair. */
  lemma PairIs(L: Layout, n: nat, key: Key)
    requires Sound(L)
    ensures var pos := L.hash(n, key) / 64 % L.words;
            pos - pos % 2 == 2 * Pair(L, n, key) && 2 * Pair(L, n, key) + 1 < L.words
    ensures Bit(L, n, key) == L.hash(n, key) % 64
  {
  }

  lemma HitStep(L: Layout, key: Key, n: nat, before: seq<Word>, now: seq<Word>, next: seq<Word>, generation: nat)
    requires L.words > 0 && 1 <= generation <= 3 && HitMarks(L, key, n, before, now, generation)
    requires var lo, bit := 2 * Pair(L, n, key), Bit(L, n, key);
             lo + 1 < |now| && next == now[lo := now[lo][bit := generation % 2 == 1]][lo + 1 := now[lo + 1][bit := generation / 2 == 1]]
    ensures HitMarks(L, key, n + 1, before, next, generation)
  {
    hide HitBy, Pair, Bit;
    forall pair, bit | 0 <= pair && 2 * pair + 1 < |next| && 0 <= bit < 64
      ensures MarkAt(next, pair, bit) == if HitBy(L, key, n + 1, pair, bit) then generation else MarkAt(before, pair, bit)
    {
      HitByNext(L, key, n, pair, bit);
      assert MarkAt(now, pair, bit) == if HitBy(L, key, n, pair, bit) then generation else MarkAt(before, pair, bit);
    }
  }

  lemma HitByNext(L: Layout, key: Key, n: nat, pair: nat, bit: nat)
    requires L.words > 0
    ensures HitBy(L, key, n + 1, pair, bit) <==> HitBy(L, key, n, pair, bit) || (Pair(L, n, key) == pair && Bit(L, n, key) == bit)
    ensures Bit(L, n, key) < 64
  {
    hide Pair;
  }

  lemma HitAll(L: Layout, history: seq<Key>, key: Key, before: seq<Word>, data: seq<Word>, current: nat)
    requires Sound(L) && current == Generation(L, |history| + 1) && Marked(L, history, before, current)
    requires HitMarks(L, key, L.hashFuncs, before, data, current % 3 + 1)
    ensures Marked(L, history + [key], data, current)
  {
    hide Generation, MarkAt, HitBy;
    var more := history + [key];
    assert more[..|history|] == history && more[|more| - 1] == key;
    forall pair, bit | 0 <= pair && 2 * pair + 1 < |data| && 0 <= bit < 64
      ensures MarkAt(data, pair, bit) == Mark(L, LastHit(L, more, pair, bit), current)
    {
      assert MarkAt(before, pair, bit) == Mark(L, LastHit(L, history, pair, bit), current);
    }
  }

  // ----- looking up -----

  ghost predicate Recent(L: Layout, history: seq<Key>, pair: nat, bit: nat)
    requires Sound(L)
  {
    var hit := LastHit(L, history, pair, bit);
    hit > 0 && hit > |history| - Remembered(L, |history|)
  }

  lemma RecentMark(L: Layout, history: seq<Key>, data: seq<Word>, pair: nat, bit: nat)
    requires Sound(L) && Marked(L, history, data, Generation(L, |history|)) && 2 * pair + 1 < |data| && bit < 64
    ensures Recent(L, history, pair, bit) <==> data[2 * pair][bit] || data[2 * pair + 1][bit]
  {
    hide Generation, Remembered, LastHit;
    var hit := LastHit(L, history, pair, bit);
    assert MarkAt(data, pair, bit) == Mark(L, hit, Generation(L, |history|));
    if hit > 0 {
      RecentIsRemembered(L, hit, |history|);
    }
  }

  lemma PresentIs(L: Layout, history: seq<Key>, key: Key)
    requires Sound(L)
    ensures Present(L, history, key) <==> forall n :: 0 <= n < L.hashFuncs ==> Recent(L, history, Pair(L, n, key), Bit(L, n, key))
  {
    hide Remembered, LastHit, Pair, Bit;
  }

  /** What the filter promises: the last `nElements` keys, and up to one and a half times as many, are never missing. */
  lemma LastOnesArePresent(L: Layout, nElements: nat, history: seq<Key>, i: nat)
    requires Sound(L) && nElements > 0 && L.perGeneration == (nElements + 1) / 2
    requires |history| - nElements <= i < |history|
    ensures Present(L, history, history[i])
    ensures nElements < Remembered(L, |history|) && 2 * Remembered(L, |history|) <= 3 * (nElements + 1)
  {
    hide Present;
    RemembersEnough(L, |history|);
    RecentIsPresent(L, history, i);
  }
}
