/** The block compression routine of sha256.c: the rewritten elementary functions, the round
    macro that turns the register indices instead of moving the registers, and the message
    schedule that grows in place. */
module Sha256Transform {
  import opened Bytes
  import F = Fips180

  // The macros of lines 70 to 83.

  function ChMacro(x: Word, y: Word, z: Word): Word { (x & (y ^ z)) ^ z }

  function MajMacro(x: Word, y: Word, z: Word): Word { (x & (y | z)) | (y & z) }

  function S0Macro(x: Word): Word {
    ((x >> 2) | (x << 30)) ^ ((x >> 13) | (x << 19)) ^ ((x >> 22) | (x << 10))
  }

  function S1Macro(x: Word): Word {
    ((x >> 6) | (x << 26)) ^ ((x >> 11) | (x << 21)) ^ ((x >> 25) | (x << 7))
  }

  function LowerS0Macro(x: Word): Word { ((x >> 7) | (x << 25)) ^ ((x >> 18) | (x << 14)) ^ (x >> 3) }

  function LowerS1Macro(x: Word): Word { ((x >> 17) | (x << 15)) ^ ((x >> 19) | (x << 13)) ^ (x >> 10) }

  lemma ChRewritten(x: Word, y: Word, z: Word)
    ensures ChMacro(x, y, z) == F.Ch(x, y, z)
  {
    assert (x & (y ^ z)) ^ z == (x & y) ^ (!x & z);
  }

  lemma MajRewritten(x: Word, y: Word, z: Word)
    ensures MajMacro(x, y, z) == F.Maj(x, y, z)
  {
    assert (x & (y | z)) | (y & z) == (x & y) ^ (x & z) ^ (y & z);
  }

  lemma RotationsBySafeShifts(x: Word)
    ensures S0Macro(x) == F.BigSigma0(x)
    ensures S1Macro(x) == F.BigSigma1(x)
    ensures LowerS0Macro(x) == F.SmallSigma0(x)
    ensures LowerS1Macro(x) == F.SmallSigma1(x)
  {
  }

  /** The first line of RND, whose macro argument k is the text W[i + ii] + Krnd[i + ii]. */
  function RndSum(h: Word, s: Word, c: Word, w: Word, k: Word): Word { h + (s + c + (w + k)) }

  /** RND: the values it leaves in d and in h. */
  function RndMacro(r: F.Registers, w: Word, k: Word): (Word, Word) {
    var h1 := RndSum(r.h, S1Macro(r.e), ChMacro(r.e, r.f, r.g), w, k);
    (Add(r.d, h1), Add(h1, Add(S0Macro(r.a), MajMacro(r.a, r.b, r.c))))
  }

  /** Up to the renaming of the registers, RND is one round of the standard. */
  lemma RndIsRound(r: F.Registers, w: Word, k: Word)
    ensures F.Round(r, k, w)
            == F.Registers(RndMacro(r, w, k).1, r.a, r.b, r.c, RndMacro(r, w, k).0, r.e, r.f, r.g)
  {
    hide Add, RndSum, F.FirstSum, F.BigSigma0, F.BigSigma1, F.Ch, F.Maj, S0Macro, S1Macro, ChMacro, MajMacro;
    ChRewritten(r.e, r.f, r.g);
    MajRewritten(r.a, r.b, r.c);
    RotationsBySafeShifts(r.e);
    RotationsBySafeShifts(r.a);
    SumRegrouped(r.h, F.BigSigma1(r.e), F.Ch(r.e, r.f, r.g), k, w);
  }

  lemma SumRegrouped(h: Word, s: Word, c: Word, k: Word, w: Word)
    ensures F.FirstSum(h, s, c, k, w) == RndSum(h, s, c, w, k)
  {
  }

  // The scratch array tmp32 holds the schedule W in places 0 to 63 and the registers S after it.

  const SCRATCH: nat := 72

  /** Where macro argument S[(64 + j - i) % 8] of round i lives in the scratch array. */
  function Slot(j: nat, i: nat): (s: nat)
    requires j < 8 && i <= 16
    ensures 64 <= s < 72
  {
    64 + (64 + j - i) % 8
  }

  lemma SlotsDistinct(i: nat)
    requires i <= 16
    ensures forall j, k :: 0 <= j < 8 && 0 <= k < 8 && j != k ==> Slot(j, i) != Slot(k, i)
  {
  }

  /** The registers a to h as round i of a group of sixteen finds them. */
  ghost function View(tmp32: seq<Word>, i: nat): F.Registers
    requires |tmp32| == SCRATCH && i <= 16
  {
    F.Registers(tmp32[Slot(0, i)], tmp32[Slot(1, i)], tmp32[Slot(2, i)], tmp32[Slot(3, i)],
                tmp32[Slot(4, i)], tmp32[Slot(5, i)], tmp32[Slot(6, i)], tmp32[Slot(7, i)])
  }

  ghost predicate Scheduled(tmp32: seq<Word>, block: F.Block, n: nat)
    requires |tmp32| == SCRATCH && n <= 64
  {
    forall t :: 0 <= t < n ==> tmp32[t] == F.MessageWord(block, t)
  }

  /** RNDr: two registers change, none moves; the next round reads all eight one place further. */
  method RoundInPlace(tmp32: array<Word>, i: nat, ii: nat)
    requires tmp32.Length == SCRATCH && i < 16 && i + ii < 64
    modifies tmp32
    ensures forall t :: 0 <= t < 64 ==> tmp32[t] == old(tmp32[t])
    ensures View(tmp32[..], i + 1) == F.Round(old(View(tmp32[..], i)), F.K(i + ii), old(tmp32[i + ii]))
  {
    hide Add, RndSum, Slot, F.K, F.Round, F.BigSigma0, F.BigSigma1, F.Ch, F.Maj;
    hide S0Macro, S1Macro, ChMacro, MajMacro;
    var w, k := tmp32[i + ii], F.K(i + ii);
    var a, b, c, d := Slot(0, i), Slot(1, i), Slot(2, i), Slot(3, i);
    var e, f, g, h := Slot(4, i), Slot(5, i), Slot(6, i), Slot(7, i);
    SlotsDistinct(i);
    SlotsTurn(i);
    RndIsRound(View(tmp32[..], i), w, k);
    tmp32[h] := RndSum(tmp32[h], S1Macro(tmp32[e]), ChMacro(tmp32[e], tmp32[f], tmp32[g]), w, k);
    tmp32[d] := Add(tmp32[d], tmp32[h]);
    tmp32[h] := Add(tmp32[h], Add(S0Macro(tmp32[a]), MajMacro(tmp32[a], tmp32[b], tmp32[c])));
  }

  lemma SlotsTurn(i: nat)
    requires i < 16
    ensures forall j :: 0 <= j < 7 ==> Slot(j + 1, i + 1) == Slot(j, i)
    ensures Slot(0, i + 1) == Slot(7, i)
    ensures Slot(0, 16) == Slot(0, 0) && forall j :: 0 <= j < 8 ==> Slot(j, 16) == Slot(j, 0) == 64 + j
  {
  }

  /** be32dec_vect: decode a vector of words, one at a time, into the front of dst. */
  method Be32DecVect(dst: array<Word>, src: seq<Byte>)
    requires |src| % 4 == 0 && |src| / 4 <= dst.Length
    modifies dst
    ensures forall t :: 0 <= t < |src| / 4 ==> dst[t] == Be32Dec(src[4 * t..4 * t + 4])
    ensures dst[|src| / 4..] == old(dst[|src| / 4..])
  {
    hide Be32Dec;
    for i := 0 to |src| / 4
      invariant forall t :: 0 <= t < i ==> dst[t] == Be32Dec(src[4 * t..4 * t + 4])
      invariant forall t :: i <= t < dst.Length ==> dst[t] == old(dst[t])
    {
      dst[i] := Be32Dec(src[4 * i..4 * i + 4]);
    }
  }

  /** MSCH: one more word of the schedule, from four that are already there. */
  method ExtendSchedule(tmp32: array<Word>, ii: nat, i: nat, ghost block: F.Block)
    requires tmp32.Length == SCRATCH && i + ii + 16 < 64
    requires Scheduled(tmp32[..], block, i + ii + 16)
    modifies tmp32
    ensures Scheduled(tmp32[..], block, i + ii + 17)
    ensures forall t :: 64 <= t < SCRATCH ==> tmp32[t] == old(tmp32[t])
  {
    hide Add, F.SmallSigma0, F.SmallSigma1, LowerS0Macro, LowerS1Macro;
    RotationsBySafeShifts(tmp32[i + ii + 14]);
    RotationsBySafeShifts(tmp32[i + ii + 1]);
    ghost var t := i + ii + 16;
    assert F.MessageWord(block, t)
        == Add(Add(Add(F.SmallSigma1(F.MessageWord(block, t - 2)), F.MessageWord(block, t - 7)),
                   F.SmallSigma0(F.MessageWord(block, t - 15))), F.MessageWord(block, t - 16));
    tmp32[i + ii + 16] :=
      Add(Add(Add(LowerS1Macro(tmp32[i + ii + 14]), tmp32[i + ii + 9]), LowerS0Macro(tmp32[i + ii + 1])),
          tmp32[i + ii]);
  }

  /** One group of sixteen rounds, after which the register indices are back where they began. */
  method SixteenRounds(tmp32: array<Word>, i: nat, ghost block: F.Block, ghost start: F.Registers)
    requires tmp32.Length == SCRATCH && i <= 48
    requires Scheduled(tmp32[..], block, i + 16)
    requires View(tmp32[..], 0) == F.Rounds(start, block, i)
    modifies tmp32
    ensures Scheduled(tmp32[..], block, i + 16)
    ensures View(tmp32[..], 0) == F.Rounds(start, block, i + 16)
  {
    hide F.Round, F.MessageWord, F.K, Slot;
    for r := 0 to 16
      invariant Scheduled(tmp32[..], block, i + 16)
      invariant View(tmp32[..], r) == F.Rounds(start, block, i + r)
    {
      RoundInPlace(tmp32, r, i);
    }
    SlotsTurn(0);
  }

  /** The next sixteen words of the schedule. */
  method SixteenWords(tmp32: array<Word>, i: nat, ghost block: F.Block, ghost registers: F.Registers)
    requires tmp32.Length == SCRATCH && i <= 32
    requires Scheduled(tmp32[..], block, i + 16)
    requires View(tmp32[..], 0) == registers
    modifies tmp32
    ensures Scheduled(tmp32[..], block, i + 32)
    ensures View(tmp32[..], 0) == registers
  {
    for r := 0 to 16
      invariant Scheduled(tmp32[..], block, i + 16 + r)
      invariant View(tmp32[..], 0) == registers
    {
      ExtendSchedule(tmp32, r, i, block);
    }
  }

  /** memcpy(S, state, 32). */
  method LoadRegisters(state: array<Word>, tmp32: array<Word>, ghost block: F.Block)
    requires state.Length == 8 && tmp32.Length == SCRATCH && state != tmp32
    requires Scheduled(tmp32[..], block, 16)
    modifies tmp32
    ensures Scheduled(tmp32[..], block, 16)
    ensures View(tmp32[..], 0) == F.Load(state[..])
  {
    for j := 0 to 8
      invariant Scheduled(tmp32[..], block, 16)
      invariant forall k :: 0 <= k < j ==> tmp32[64 + k] == state[k]
    {
      tmp32[64 + j] := state[j];
    }
  }

  /** SHA256_Transform: the compression function of section 6.2.2, computed in place. */
  method Transform(state: array<Word>, block: F.Block, tmp32: array<Word>)
    requires state.Length == 8 && tmp32.Length == SCRATCH && state != tmp32
    modifies state, tmp32
    ensures state[..] == F.Compress(old(state[..]), block)
  {
    hide Add, Be32Dec, F.Round, F.MessageWord, F.K;
    Be32DecVect(tmp32, block);
    FirstWords(tmp32[..], block);
    LoadRegisters(state, tmp32, block);
    ghost var start := F.Load(state[..]);
    var i := 0;
    while i < 64
      invariant i % 16 == 0 && i <= 48
      invariant state[..] == old(state[..])
      invariant Scheduled(tmp32[..], block, i + 16)
      invariant View(tmp32[..], 0) == F.Rounds(start, block, i)
      decreases 64 - i
    {
      SixteenRounds(tmp32, i, block, start);
      if i == 48 {
        break;
      }
      SixteenWords(tmp32, i, block, F.Rounds(start, block, i + 16));
      i := i + 16;
    }
    AddRegisters(state, tmp32, F.Rounds(start, block, 64));
  }

  /** Step 4: mix the local working variables into the state. */
  method AddRegisters(state: array<Word>, tmp32: array<Word>, ghost r: F.Registers)
    requires state.Length == 8 && tmp32.Length == SCRATCH && state != tmp32
    requires View(tmp32[..], 0) == r
    modifies state
    ensures state[..] == (var h := old(state[..]);
      [Add(h[0], r.a), Add(h[1], r.b), Add(h[2], r.c), Add(h[3], r.d),
       Add(h[4], r.e), Add(h[5], r.f), Add(h[6], r.g), Add(h[7], r.h)])
  {
    hide Add, View;
    for j := 0 to 8
      invariant forall k :: 0 <= k < j ==> state[k] == Add(old(state[k]), tmp32[64 + k])
      invariant forall k :: j <= k < 8 ==> state[k] == old(state[k])
    {
      state[j] := Add(state[j], tmp32[64 + j]);
    }
    AddedUp(old(state[..]), state[..], tmp32[..], r);
  }

  lemma AddedUp(h: seq<Word>, sums: seq<Word>, tmp32: seq<Word>, r: F.Registers)
    requires |h| == |sums| == 8 && |tmp32| == SCRATCH && View(tmp32, 0) == r
    requires forall k :: 0 <= k < 8 ==> sums[k] == Add(h[k], tmp32[64 + k])
    ensures sums == [Add(h[0], r.a), Add(h[1], r.b), Add(h[2], r.c), Add(h[3], r.d),
                     Add(h[4], r.e), Add(h[5], r.f), Add(h[6], r.g), Add(h[7], r.h)]
  {
    SlotsTurn(0);
    hide Add, Slot;
  }

  lemma FirstWords(tmp32: seq<Word>, block: F.Block)
    requires |tmp32| == SCRATCH
    requires forall t :: 0 <= t < 16 ==> tmp32[t] == Be32Dec(block[4 * t..4 * t + 4])
    ensures Scheduled(tmp32, block, 16)
  {
    hide Be32Dec;
  }
}
