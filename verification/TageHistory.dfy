/** The branch history of the TAGE predictor (bpred-tage.cpp): 512 bits kept in eight machine words, shifted
    by one for every branch, and folded into a table index. A word is written as its bits, bit 0 first. */
module TageHistory {

  const WORDS := 8
  const WORD_BITS := 64
  const MAX_HIST := 512

  type Word = w: seq<bool> | |w| == WORD_BITS witness seq(WORD_BITS, _ => false)

  function Shl(w: Word, n: nat): Word {
    seq(WORD_BITS, k requires 0 <= k < WORD_BITS => k >= n && w[k - n])
  }

  function Shr(w: Word, n: nat): Word {
    seq(WORD_BITS, k requires 0 <= k < WORD_BITS => k + n < WORD_BITS && w[k + n])
  }

  function And(a: Word, b: Word): Word {
    seq(WORD_BITS, k requires 0 <= k < WORD_BITS => a[k] && b[k])
  }

  function Or(a: Word, b: Word): Word {
    seq(WORD_BITS, k requires 0 <= k < WORD_BITS => a[k] || b[k])
  }

  function Xor(a: Word, b: Word): Word {
    seq(WORD_BITS, k requires 0 <= k < WORD_BITS => a[k] != b[k])
  }

  /** The word whose lowest n bits are set: (1 << n) - 1. */
  function Ones(n: nat): Word {
    seq(WORD_BITS, k requires 0 <= k < WORD_BITS => k < n)
  }

  /** The history as one string of bits, the latest outcome first. */
  ghost function Logical(H: seq<Word>): (h: seq<bool>)
    requires |H| == WORDS
    ensures |h| == MAX_HIST
  {
    seq(MAX_HIST, k requires 0 <= k < MAX_HIST => H[k / WORD_BITS][k % WORD_BITS])
  }

  /** A new outcome; the oldest one is forgotten. */
  ghost function Push(h: seq<bool>, outcome: bool): (h': seq<bool>)
    requires |h| > 0
    ensures |h'| == |h|
  {
    [outcome] + h[..|h| - 1]
  }

  /** The exclusive or of bit j of the first n chunks of `length` bits. */
  ghost function Folded(h: seq<bool>, length: nat, n: nat, j: nat): bool
    requires j < length && n * length <= |h|
  {
    if n == 0 then false
    else
      ChunkInside(|h|, length, n, j);
      Folded(h, length, n - 1, j) != h[(n - 1) * length + j]
  }

  ghost predicate ChunkBit(h: seq<bool>, length: nat, i: nat, j: nat) {
    i * length + j < |h| && h[i * length + j]
  }

  /** The chunks in which bit j is set. */
  ghost function SetIn(h: seq<bool>, length: nat, n: nat, j: nat): set<nat> {
    set i: nat | i < n && ChunkBit(h, length, i, j)
  }

  lemma OneMoreChunk(h: seq<bool>, length: nat, n: nat, j: nat)
    ensures SetIn(h, length, n + 1, j) == SetIn(h, length, n, j) + if ChunkBit(h, length, n, j) then {n} else {}
    ensures |SetIn(h, length, n + 1, j)| == |SetIn(h, length, n, j)| + if ChunkBit(h, length, n, j) then 1 else 0
  {
    hide ChunkBit;
  }

  /** The folded bit is the parity of bit j over the chunks. */
  lemma {:induction false} FoldedIsParity(h: seq<bool>, length: nat, n: nat, j: nat)
    requires j < length && n * length <= |h|
    ensures Folded(h, length, n, j) <==> |SetIn(h, length, n, j)| % 2 == 1
  {
    hide SetIn;
    if n > 0 {
      ChunkInside(|h|, length, n, j);
      FoldedIsParity(h, length, n - 1, j);
      OneMoreChunk(h, length, n - 1, j);
    } else {
      NoChunks(h, length, j);
    }
  }

  lemma NoChunks(h: seq<bool>, length: nat, j: nat)
    ensures SetIn(h, length, 0, j) == {}
  {
  }

  lemma ChunkInside(size: nat, length: nat, n: nat, j: nat)
    requires 0 < n && j < length && n * length <= size
    ensures 0 <= (n - 1) * length && (n - 1) * length + length == n * length
  {
    assert (n - 1) * length + length == n * length;
  }

  lemma BitAt(H: seq<Word>, row: nat, pos: nat)
    requires |H| == WORDS && row < WORDS && pos < WORD_BITS
    ensures Logical(H)[row * WORD_BITS + pos] == H[row][pos]
  {
    assert (row * WORD_BITS + pos) / WORD_BITS == row && (row * WORD_BITS + pos) % WORD_BITS == pos;
  }

  /** One word of an update: its highest bit leaves, that of the word below enters. */
  function Carry(w: Word, below: bool): Word {
    Or(Shl(w, 1), And(Ones(1), seq(WORD_BITS, _ => below)))
  }

  lemma CarryBits(w: Word, below: bool)
    ensures Carry(w, below) == [below] + w[..WORD_BITS - 1]
  {
  }

  lemma UpdateIsPush(H: seq<Word>, H': seq<Word>, outcome: bool)
    requires |H| == |H'| == WORDS && H'[0] == Carry(H[0], outcome)
    requires forall r :: 0 < r < WORDS ==> H'[r] == Carry(H[r], H[r - 1][WORD_BITS - 1])
    ensures Logical(H') == Push(Logical(H), outcome)
  {
    hide Carry;
    forall k | 0 <= k < MAX_HIST ensures Logical(H')[k] == Push(Logical(H), outcome)[k] {
      var r, p := k / WORD_BITS, k % WORD_BITS;
      CarryBits(H[r], if r == 0 then outcome else H[r - 1][WORD_BITS - 1]);
      if p == 0 && r > 0 { BitAt(H, r - 1, WORD_BITS - 1); }
      if p > 0 { BitAt(H, r, p - 1); }
    }
  }

  lemma TopBits(H: seq<Word>)
    ensures forall r :: 0 <= r < |H| ==> Shr(H[r], 63)[0] == H[r][WORD_BITS - 1]
  {
  }

  /** Shifts a whole history, word by word from the top. */
  method HistUpdate(H: array<Word>, outcome: bool)
    requires H.Length == WORDS
    modifies H
    ensures Logical(H[..]) == Push(old(Logical(H[..])), outcome)
  {
    hide Carry, Shr, Logical, Push;
    ghost var was := H[..];
    TopBits(was);
    H[7] := Carry(H[7], Shr(H[6], 63)[0]);
    H[6] := Carry(H[6], Shr(H[5], 63)[0]);
    H[5] := Carry(H[5], Shr(H[4], 63)[0]);
    H[4] := Carry(H[4], Shr(H[3], 63)[0]);
    H[3] := Carry(H[3], Shr(H[2], 63)[0]);
    H[2] := Carry(H[2], Shr(H[1], 63)[0]);
    H[1] := Carry(H[1], Shr(H[0], 63)[0]);
    H[0] := Carry(H[0], outcome);
    UpdateIsPush(was, H[..], outcome);
  }

  method HistCopy(D: array<Word>, S: array<Word>)
    requires D.Length == S.Length == WORDS
    modifies D
    ensures D[..] == old(S[..])
  {
    D[0] := S[0];
    D[1] := S[1];
    D[2] := S[2];
    D[3] := S[3];
    D[4] := S[4];
    D[5] := S[5];
    D[6] := S[6];
    D[7] := S[7];
    assert D[..] == old(S[..]);
  }

  /** What the loop adds for the chunk that starts at bit `pos` of word `row`. */
  lemma ChunkBits(H: seq<Word>, length: nat, row: nat, pos: nat)
    requires |H| == WORDS && 0 < length <= WORD_BITS && row < WORDS && pos < WORD_BITS
    requires row * WORD_BITS + pos + length <= MAX_HIST
    ensures var low := And(Shr(H[row], pos), Ones(length));
            if pos + length <= WORD_BITS
            then forall j :: 0 <= j < WORD_BITS ==> low[j] == (j < length && Logical(H)[row * WORD_BITS + pos + j])
            else row + 1 < WORDS
                 && var high := And(Shl(H[row + 1], WORD_BITS - pos), Ones(length));
                 forall j :: 0 <= j < WORD_BITS ==>
                   (low[j] != high[j]) == (j < length && Logical(H)[row * WORD_BITS + pos + j])
  {
    var h, start := Logical(H), row * WORD_BITS + pos;
    forall k | start <= k < start + length
      ensures h[k] == if k - start + pos < WORD_BITS then H[row][k - start + pos] else H[row + 1][k - start + pos - WORD_BITS]
    {
      if k - start + pos < WORD_BITS {
        BitAt(H, row, k - start + pos);
      } else {
        BitAt(H, row + 1, k - start + pos - WORD_BITS);
      }
    }
  }

  /** The result so far: the first n chunks, folded. */
  ghost predicate FoldedInto(result: Word, h: seq<bool>, length: nat, n: nat)
    requires n * length <= |h|
  {
    forall j :: 0 <= j < WORD_BITS ==> result[j] == (j < length && Folded(h, length, n, j))
  }

  lemma FoldOne(H: seq<Word>, length: nat, row: nat, pos: nat, n: nat, result: Word)
    requires |H| == WORDS && 0 < length <= WORD_BITS && row < WORDS && pos < WORD_BITS
    requires row * WORD_BITS + pos == n * length && (n + 1) * length == n * length + length <= MAX_HIST
    requires FoldedInto(result, Logical(H), length, n)
    ensures var next := Xor(result, And(Shr(H[row], pos), Ones(length)));
            if pos + length <= WORD_BITS then FoldedInto(next, Logical(H), length, n + 1)
            else row + 1 < WORDS
                 && FoldedInto(Xor(next, And(Shl(H[row + 1], WORD_BITS - pos), Ones(length))), Logical(H), length, n + 1)
  {
    ChunkBits(H, length, row, pos);
    hide Logical;
    var h := Logical(H);
    assert forall j :: 0 <= j < length ==> Folded(h, length, n + 1, j) == (Folded(h, length, n, j) != h[n * length + j]);
  }

  /** Folds the latest `histLength` outcomes, as far as they fill chunks of `hashLength` bits. No word past
      the last one is read. */
  method HistHash(H: array<Word>, histLength: nat, hashLength: nat) returns (result: Word)
    requires H.Length == WORDS && 1 <= hashLength <= 30 && histLength <= MAX_HIST
    ensures (histLength / hashLength) * hashLength <= histLength
    ensures FoldedInto(result, Logical(H[..]), hashLength, histLength / hashLength)
  {
    hide Xor, Shl, Shr, And, Ones, Logical, FoldedInto;
    var n := histLength / hashLength;
    assert n * hashLength <= histLength;
    result := Ones(0);
    NothingFolded(Logical(H[..]), hashLength);
    var mask := Ones(hashLength);
    var row: nat, pos: nat, i: nat := 0, 0, 0;
    while i < n
      invariant i <= n && row * WORD_BITS + pos == i * hashLength <= MAX_HIST && pos < WORD_BITS
      invariant FoldedInto(result, Logical(H[..]), hashLength, i)
    {
      NextChunk(hashLength, i, n);
      FoldOne(H[..], hashLength, row, pos, i, result);
      result := Xor(result, And(Shr(H[row], pos), mask));
      if pos + hashLength > WORD_BITS {
        row := row + 1;
        pos := pos + hashLength - WORD_BITS;
        result := Xor(result, And(Shl(H[row], hashLength - pos), mask));
      } else {
        pos := pos + hashLength;
        if pos > 63 {
          pos := pos - WORD_BITS;
          row := row + 1;
        }
      }
      i := i + 1;
    }
  }

  lemma NothingFolded(h: seq<bool>, length: nat)
    ensures FoldedInto(Ones(0), h, length, 0)
  {
  }

  lemma NextChunk(length: nat, i: nat, n: nat)
    requires i < n && n * length <= MAX_HIST
    ensures (i + 1) * length == i * length + length <= MAX_HIST
  {
    assert (i + 1) * length <= n * length;
  }

  /** The predictor's history and the checkpoint taken at a lookup. */
  class Tage {
    const bhr: array<Word>

    constructor ()
      ensures bhr.Length == WORDS && fresh(bhr) && Logical(bhr[..]) == NoHistory()
    {
      bhr := new Word[WORDS](_ => Ones(0));
      new;
      assert forall k :: 0 <= k < MAX_HIST ==> bhr[..][k / WORD_BITS] == Ones(0);
    }

    method Lookup(lookupBhr: array<Word>)
      requires bhr.Length == lookupBhr.Length == WORDS && lookupBhr != bhr
      modifies lookupBhr
      ensures lookupBhr[..] == bhr[..]
    {
      HistCopy(lookupBhr, bhr);
    }

    method SpecUpdate(prediction: bool)
      requires bhr.Length == WORDS
      modifies bhr
      ensures Logical(bhr[..]) == Push(old(Logical(bhr[..])), prediction)
    {
      HistUpdate(bhr, prediction);
    }

    /** The history becomes that of the checkpoint with the true outcome, whatever was predicted since. */
    method Recover(lookupBhr: array<Word>, outcome: bool)
      requires bhr.Length == lookupBhr.Length == WORDS && lookupBhr != bhr
      modifies bhr
      ensures Logical(bhr[..]) == Push(Logical(lookupBhr[..]), outcome)
    {
      HistCopy(bhr, lookupBhr);
      HistUpdate(bhr, outcome);
    }

    method Flush(lookupBhr: array<Word>)
      requires bhr.Length == lookupBhr.Length == WORDS && lookupBhr != bhr
      modifies bhr
      ensures Logical(bhr[..]) == Logical(lookupBhr[..])
    {
      HistCopy(bhr, lookupBhr);
    }
  }

  ghost function PushAll(h: seq<bool>, outcomes: seq<bool>): (h': seq<bool>)
    requires |h| > 0
    ensures |h'| == |h|
    decreases |outcomes|
  {
    if outcomes == [] then h else Push(PushAll(h, outcomes[..|outcomes| - 1]), outcomes[|outcomes| - 1])
  }

  /** Bit k of the history is the outcome of k branches ago: after any outcomes, latest first, then what was
      there before. */
  lemma {:induction false} HistoryIsLatestFirst(h: seq<bool>, outcomes: seq<bool>, k: nat)
    requires k < |h|
    ensures PushAll(h, outcomes)[k]
            == if k < |outcomes| then outcomes[|outcomes| - 1 - k] else h[k - |outcomes|]
    decreases |outcomes|
  {
    hide Push;
    if outcomes == [] {
    } else {
      var earlier, last := outcomes[..|outcomes| - 1], outcomes[|outcomes| - 1];
      PushAt(PushAll(h, earlier), last, k);
      if k > 0 { HistoryIsLatestFirst(h, earlier, k - 1); }
    }
  }

  lemma PushAt(h: seq<bool>, outcome: bool, k: nat)
    requires k < |h|
    ensures Push(h, outcome)[k] == if k == 0 then outcome else h[k - 1]
  {
  }

  lemma PushAllSnoc(h: seq<bool>, outcomes: seq<bool>, outcome: bool)
    requires |h| > 0
    ensures PushAll(h, outcomes + [outcome]) == Push(PushAll(h, outcomes), outcome)
  {
    assert (outcomes + [outcome])[..|outcomes|] == outcomes;
  }

  ghost function NoHistory(): (h: seq<bool>)
    ensures |h| == MAX_HIST && forall k :: 0 <= k < MAX_HIST ==> !h[k]
  {
    seq(MAX_HIST, _ => false)
  }

  /** A predictor with branches in flight. Every one of them has a checkpoint, and `path` holds what was predicted
      or found for it and for all branches before. */
  class Speculation {
    const tage: Tage
    var checkpoints: seq<array<Word>>  // of the branches in flight, oldest first
    ghost var path: seq<bool>

    ghost predicate Valid()
      reads this, tage.bhr, checkpoints
    {
      && tage.bhr.Length == WORDS && |checkpoints| <= |path|
      && Logical(tage.bhr[..]) == PushAll(NoHistory(), path)
      && (forall i, j :: 0 <= i < j < |checkpoints| ==> checkpoints[i] != checkpoints[j])
      && (forall i :: 0 <= i < |checkpoints| ==> checkpoints[i].Length == WORDS && checkpoints[i] != tage.bhr)
      && (forall i :: 0 <= i < |checkpoints| ==> Logical(checkpoints[i][..]) == PushAll(NoHistory(), Before(i)))
    }

    /** What the history consists of when the i-th branch in flight is fetched. */
    ghost function Before(i: nat): seq<bool>
      requires i < |checkpoints| <= |path|
      reads this
    {
      path[..|path| - |checkpoints| + i]
    }

    constructor ()
      ensures Valid() && fresh(tage.bhr) && path == [] && checkpoints == []
    {
      tage := new Tage();
      checkpoints, path := [], [];
    }

    /** A branch is fetched: its history is saved, and goes on with the prediction. */
    method Predict(sc: array<Word>, prediction: bool)
      requires Valid() && sc.Length == WORDS && sc != tage.bhr && sc !in checkpoints
      modifies this`checkpoints, this`path, tage.bhr, sc
      ensures Valid() && path == old(path) + [prediction] && checkpoints == old(checkpoints) + [sc]
    {
      hide Logical, Push, PushAll;
      PushAllSnoc(NoHistory(), path, prediction);
      tage.Lookup(sc);
      tage.SpecUpdate(prediction);
      checkpoints, path := checkpoints + [sc], path + [prediction];
      forall i | 0 <= i < |checkpoints| ensures Before(i) == if i < |checkpoints| - 1 then old(Before(i)) else old(path) {}
    }

    /** Branch j in flight was mispredicted: the younger ones are squashed. */
    method Mispredict(j: nat, outcome: bool)
      requires Valid() && j < |checkpoints|
      modifies this`checkpoints, this`path, tage.bhr
      ensures Valid() && path == old(Before(j)) + [outcome]
      ensures checkpoints == old(checkpoints)[..j + 1]
    {
      hide Logical, Push, PushAll;
      ghost var before := Before(j);
      PushAllSnoc(NoHistory(), before, outcome);
      tage.Recover(checkpoints[j], outcome);
      checkpoints, path := checkpoints[..j + 1], before + [outcome];
      forall i | 0 <= i < |checkpoints| ensures Before(i) == old(Before(i)) {}
    }

    /** Branch j and the younger ones are squashed. */
    method Squash(j: nat)
      requires Valid() && j < |checkpoints|
      modifies this`checkpoints, this`path, tage.bhr
      ensures Valid() && path == old(Before(j))
      ensures checkpoints == old(checkpoints)[..j]
    {
      hide Logical, PushAll;
      tage.Flush(checkpoints[j]);
      path := Before(j);
      checkpoints := checkpoints[..j];
      forall i | 0 <= i < |checkpoints| ensures Before(i) == old(Before(i)) {}
    }

    /** The oldest branch commits; its checkpoint can be used again. */
    method Commit() returns (sc: array<Word>)
      requires Valid() && checkpoints != []
      modifies this`checkpoints
      ensures Valid() && path == old(path) && [sc] + checkpoints == old(checkpoints) && sc !in checkpoints
    {
      hide Logical, PushAll;
      sc := checkpoints[0];
      checkpoints := checkpoints[1..];
      forall i | 0 <= i < |checkpoints| ensures Before(i) == old(Before(i + 1)) {}
    }

    /** At any time the history holds the branches on the path that the core is on, latest first, and nothing
        else: neither wrong paths nor squashed branches leave a trace. */
    lemma HistoryIsPath(k: nat)
      requires Valid() && k < MAX_HIST
      ensures Logical(tage.bhr[..])[k] <==> k < |path| && path[|path| - 1 - k]
    {
      HistoryIsLatestFirst(NoHistory(), path, k);
    }
  }
}
