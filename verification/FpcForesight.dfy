/** What the predictors of FPC foresee: values that repeat, and values a constant stride apart, cost
    nothing once the hashes have filled up. */
module FpcForesight {
  import Bits
  import Sequences
  import opened Words
  import opened FpcPredictor
  import opened FpcFormat
  import opened FpcRoundTrip
  import opened FpcBounds
  import opened FpcLearning

  lemma UpdateParts(p: Predictor, val: Word)
    requires p.Valid()
    ensures var q := EncoderUpdate(p, val);
            Updated(p, val, q) && q.pred2 == q.dfcm[Index(q.dhash)]
  {
    hide Index, NextHash, NextDHash, Sub;
  }

  // ----- The first predictor -----

  /** The hash after some values, and that its entry is the first prediction. */
  lemma {:induction false} HashIs(p: Predictor, vals: seq<Word>)
    requires p.Valid()
    ensures var q := After(p, vals);
            && q.mask == p.mask && q.hash == HashAfter(p.hash, vals, p.mask)
            && (vals != [] ==> q.pred1 == q.fcm[Index(q.hash)])
  {
    hide Index, NextHash, NextDHash, Sub, EncoderUpdate;
    if vals != [] {
      HashIs(p, Init(vals));
      UpdateParts(After(p, Init(vals)), Last(vals));
    }
  }

  lemma {:induction false} HashAfterBoth(h: Word, u: seq<Word>, v: seq<Word>, mask: Word)
    ensures HashAfter(h, u + v, mask) == HashAfter(HashAfter(h, u, mask), v, mask)
  {
    hide NextHash;
    if v == [] {
      assert u + v == u;
    } else {
      assert Init(u + v) == u + Init(v) && Last(u + v) == Last(v);
      HashAfterBoth(h, u, Init(v), mask);
    }
  }

  /** The first hash in front of a value. */
  function HashAt(p: Predictor, vals: seq<Word>, t: nat): Word
    requires p.Valid() && t <= |vals|
  {
    After(p, vals[..t]).hash
  }

  /** What the first table holds for a hash in front of a value. */
  function EntryAt(p: Predictor, vals: seq<Word>, t: nat, h: Word): Word
    requires p.Valid() && t <= |vals|
  {
    var table := After(p, vals[..t]).fcm;
    if Index(h) < |table| then table[Index(h)] else 0
  }

  /** The first prediction for a value. */
  function FirstAt(p: Predictor, vals: seq<Word>, t: nat): Word
    requires p.Valid() && t <= |vals|
  {
    After(p, vals[..t]).pred1
  }

  lemma HashAtIs(p: Predictor, vals: seq<Word>, t: nat)
    requires p.Valid() && t <= |vals|
    ensures HashAt(p, vals, t) == HashAfter(p.hash, vals[..t], p.mask)
  {
    hide After, HashAfter, Index;
    HashIs(p, vals[..t]);
  }

  lemma CutBefore(s: seq<Word>, k: nat, t: nat)
    requires k <= t <= |s|
    ensures s[..t] == s[..t - k] + s[t - k..t]
  {
  }

  /** The hash in front of a value depends on the last few values alone. */
  lemma WindowHash(level: Byte, p: Predictor, vals: seq<Word>, k: nat, t: nat)
    requires p.Valid() && level <= 62 && p.mask == TableMask(level)
    requires 0 < k <= t <= |vals| && level as nat <= 6 * k
    ensures HashAt(p, vals, t) == HashAfter(0, vals[t - k..t], p.mask)
  {
    hide *;
    HashAtIs(p, vals, t);
    CutBefore(vals, k, t);
    HashAfterBoth(p.hash, vals[..t - k], vals[t - k..t], p.mask);
    HashForgets(level, HashAfter(p.hash, vals[..t - k], p.mask), 0, vals[t - k..t]);
  }

  lemma HashNext(p: Predictor, vals: seq<Word>, t: nat)
    requires p.Valid() && t < |vals|
    ensures HashAt(p, vals, t + 1) == NextHash(HashAt(p, vals, t), vals[t], p.mask)
  {
    hide After, Index, NextHash, NextDHash, Sub, EncoderUpdate, HashAfter;
    HashIs(p, vals[..t]);
    AfterNext(p, vals, t);
    UpdateParts(After(p, vals[..t]), vals[t]);
  }

  lemma FirstIsEntry(p: Predictor, vals: seq<Word>, t: nat)
    requires p.Valid() && 0 < t <= |vals|
    ensures FirstAt(p, vals, t) == EntryAt(p, vals, t, HashAt(p, vals, t))
  {
    hide After, Index, HashAfter;
    HashIs(p, vals[..t]);
  }

  lemma EntryWritten(p: Predictor, vals: seq<Word>, t: nat)
    requires p.Valid() && t < |vals|
    ensures EntryAt(p, vals, t + 1, HashAt(p, vals, t)) == vals[t]
  {
    hide After, Index, NextHash, NextDHash, Sub, EncoderUpdate;
    AfterNext(p, vals, t);
    UpdateParts(After(p, vals[..t]), vals[t]);
  }

  lemma EntryUntouched(p: Predictor, vals: seq<Word>, t: nat, h: Word)
    requires p.Valid() && t < |vals| && h != HashAt(p, vals, t)
    ensures EntryAt(p, vals, t + 1, h) == EntryAt(p, vals, t, h)
  {
    IndexInjective(h, HashAt(p, vals, t));
    hide After, Index, NextHash, NextDHash, Sub, EncoderUpdate;
    AfterNext(p, vals, t);
    UpdateParts(After(p, vals[..t]), vals[t]);
  }

  /** The entry of a hash stays the value that followed it, until that hash comes again. */
  lemma {:induction false} EntryKept(p: Predictor, vals: seq<Word>, s: nat, t: nat)
    requires p.Valid() && s < t <= |vals|
    requires forall u | s < u < t :: HashAt(p, vals, u) != HashAt(p, vals, s)
    ensures EntryAt(p, vals, t, HashAt(p, vals, s)) == vals[s]
  {
    hide *;
    if s == t - 1 {
      EntryWritten(p, vals, s);
    } else {
      EntryKept(p, vals, s, t - 1);
      EntryUntouched(p, vals, t - 1, HashAt(p, vals, s));
    }
  }

  /** The first predictor foresees the value that followed the same hash the last time. */
  lemma ForeseesFirst(p: Predictor, vals: seq<Word>, s: nat, t: nat)
    requires p.Valid() && s < t <= |vals|
    requires HashAt(p, vals, s) == HashAt(p, vals, t)
    requires forall u | s < u < t :: HashAt(p, vals, u) != HashAt(p, vals, s)
    ensures FirstAt(p, vals, t) == vals[s]
  {
    hide *;
    FirstIsEntry(p, vals, t);
    EntryKept(p, vals, s, t);
  }

  lemma EntryAtStart(level: Byte, vals: seq<Word>, h: Word)
    requires level <= 62
    ensures EntryAt(Initial(level), vals, 0, h) == 0 && DEntryAt(Initial(level), vals, 0, h) == 0
  {
    assert vals[..0] == [];
    hide Index, TableMask;
  }

  lemma StartsAtZero(level: Byte, vals: seq<Word>)
    requires level <= 62
    ensures FirstAt(Initial(level), vals, 0) == 0 && SecondAt(Initial(level), vals, 0) == 0
    ensures HashAt(Initial(level), vals, 0) == 0 && DHashAt(Initial(level), vals, 0) == 0
  {
    assert vals[..0] == [];
    assert Add(0, 0) == 0;
    hide Index, TableMask, Add;
  }

  lemma {:induction false} EntryUnseen(level: Byte, vals: seq<Word>, t: nat, h: Word)
    requires level <= 62 && t <= |vals| && forall u | 0 <= u < t :: HashAt(Initial(level), vals, u) != h
    ensures EntryAt(Initial(level), vals, t, h) == 0
  {
    hide *;
    if t == 0 {
      EntryAtStart(level, vals, h);
    } else {
      EntryUnseen(level, vals, t - 1, h);
      EntryUntouched(Initial(level), vals, t - 1, h);
    }
  }

  /** Behind a hash never met before the first predictor foresees zero. */
  lemma UnseenFirst(level: Byte, vals: seq<Word>, t: nat)
    requires level <= 62 && t <= |vals|
    requires forall u | 0 <= u < t :: HashAt(Initial(level), vals, u) != HashAt(Initial(level), vals, t)
    ensures FirstAt(Initial(level), vals, t) == 0
  {
    hide *;
    if t == 0 {
      StartsAtZero(level, vals);
    } else {
      EntryUnseen(level, vals, t, HashAt(Initial(level), vals, t));
      FirstIsEntry(Initial(level), vals, t);
    }
  }

  /** The two values are the same in the upper bits that the first hash takes in. */
  predicate LooksAlike(v: Word, w: Word, mask: Word) {
    And(v >> 48, mask) == And(w >> 48, mask)
  }

  lemma SameHashIfAlike(h: Word, v: Word, w: Word, mask: Word)
    ensures NextHash(h, v, mask) == NextHash(h, w, mask) <==> LooksAlike(v, w, mask)
  {
    hide And, NextHash;
    SameHash(h, v, w, mask);
  }

  /** Values whose upper bits look the same lead to the same hash. */
  lemma {:induction false} LookAlike(h: Word, v: seq<Word>, w: seq<Word>, mask: Word)
    requires |v| == |w| && forall i | 0 <= i < |v| :: LooksAlike(v[i], w[i], mask)
    ensures HashAfter(h, v, mask) == HashAfter(h, w, mask)
  {
    hide NextHash, LooksAlike;
    if v != [] {
      LookAlike(h, Init(v), Init(w), mask);
      SameHashIfAlike(HashAfter(h, Init(v), mask), Last(v), Last(w), mask);
    }
  }

  /** Two values in turn. */
  predicate InTurn(vals: seq<Word>) {
    forall t | 2 <= t < |vals| :: vals[t] == vals[t - 2]
  }

  lemma SameWindow(vals: seq<Word>, s: nat, t: nat)
    requires InTurn(vals) && 2 <= s <= t <= |vals|
    ensures vals[s..t] == vals[s - 2..t - 2]
  {
  }

  lemma HashInTurn(level: Byte, p: Predictor, vals: seq<Word>, k: nat, t: nat)
    requires p.Valid() && level <= 62 && p.mask == TableMask(level) && InTurn(vals)
    requires 0 < k && level as nat <= 6 * k && k + 2 <= t <= |vals|
    ensures HashAt(p, vals, t) == HashAt(p, vals, t - 2)
  {
    hide *;
    WindowHash(level, p, vals, k, t);
    WindowHash(level, p, vals, k, t - 2);
    SameWindow(vals, t - k, t);
  }

  lemma {:induction false} AlikeInTurn(vals: seq<Word>, mask: Word, s: nat, t: nat)
    requires InTurn(vals) && 1 <= s <= t < |vals|
    ensures LooksAlike(vals[t - 1], vals[t], mask) <==> LooksAlike(vals[s - 1], vals[s], mask)
    ensures vals[t - 1] == vals[t] <==> vals[s - 1] == vals[s]
  {
    hide *;
    if s < t {
      AlikeInTurn(vals, mask, s, t - 1);
      SameWindow(vals, t, t + 1);
      LastOfSlices(vals, t);
      LooksAlikeBothWays(vals[t - 2], vals[t - 1], mask);
    }
  }

  lemma AlikeWindow(vals: seq<Word>, mask: Word, s: nat, t: nat)
    requires InTurn(vals) && 1 <= s <= t < |vals| && LooksAlike(vals[t - 1], vals[t], mask)
    ensures forall i | 0 <= i < t - s :: LooksAlike(vals[s..t][i], vals[s - 1..t - 1][i], mask)
  {
    forall i | 0 <= i < t - s
      ensures LooksAlike(vals[s..t][i], vals[s - 1..t - 1][i], mask)
    {
      hide *;
      AlikeInTurn(vals, mask, s + i, t);
      LooksAlikeBothWays(vals[s + i - 1], vals[s + i], mask);
    }
  }

  lemma LooksAlikeBothWays(v: Word, w: Word, mask: Word)
    ensures LooksAlike(v, w, mask) == LooksAlike(w, v, mask)
  {
    hide And;
  }

  /** Of two values in turn, the hashes in front of one and of the other are the same exactly when the
      hash cannot tell the values apart. */
  lemma TurnsTold(level: Byte, p: Predictor, vals: seq<Word>, k: nat, t: nat)
    requires p.Valid() && level <= 62 && p.mask == TableMask(level) && InTurn(vals)
    requires 0 < k && level as nat <= 6 * k && k + 2 <= t < |vals|
    ensures HashAt(p, vals, t) == HashAt(p, vals, t - 1) <==> LooksAlike(vals[t - 1], vals[t], p.mask)
  {
    hide *;
    if LooksAlike(vals[t - 1], vals[t], p.mask) {
      WindowHash(level, p, vals, k, t);
      WindowHash(level, p, vals, k, t - 1);
      AlikeWindow(vals, p.mask, t - k, t);
      LookAlike(0, vals[t - k..t], vals[t - 1 - k..t - 1], p.mask);
    } else {
      Apart(level, p, vals, k, t);
    }
  }

  lemma Apart(level: Byte, p: Predictor, vals: seq<Word>, k: nat, t: nat)
    requires p.Valid() && level <= 62 && p.mask == TableMask(level) && InTurn(vals)
    requires 0 < k && level as nat <= 6 * k && k + 2 <= t < |vals| && !LooksAlike(vals[t - 1], vals[t], p.mask)
    ensures HashAt(p, vals, t) != HashAt(p, vals, t - 1)
  {
    hide *;
    HashInTurn(level, p, vals, k, t);
    HashNext(p, vals, t - 1);
    HashNext(p, vals, t - 2);
    SameWindow(vals, t, t + 1);
    LastOfSlices(vals, t);
    SameHashIfAlike(HashAt(p, vals, t - 1), vals[t - 1], vals[t], p.mask);
  }

  lemma LastOfSlices(vals: seq<Word>, t: nat)
    requires 2 <= t < |vals| && vals[t..t + 1] == vals[t - 2..t - 1]
    ensures vals[t] == vals[t - 2]
  {
    assert vals[t..t + 1][0] == vals[t - 2..t - 1][0];
  }

  /** Of two values in turn, the first predictor foresees each one, from a few values on, exactly
      when they are the same or its hash tells them apart. */
  lemma TurnsForeseen(level: Byte, p: Predictor, vals: seq<Word>, k: nat, t: nat)
    requires p.Valid() && level <= 62 && p.mask == TableMask(level) && InTurn(vals)
    requires 0 < k && level as nat <= 6 * k && k + 2 <= t < |vals|
    ensures FirstAt(p, vals, t) == vals[t] <==> vals[t] == vals[t - 1] || !LooksAlike(vals[t - 1], vals[t], p.mask)
  {
    hide *;
    TurnsTold(level, p, vals, k, t);
    if LooksAlike(vals[t - 1], vals[t], p.mask) {
      ForeseesFirst(p, vals, t - 1, t);
    } else {
      HashInTurn(level, p, vals, k, t);
      SameWindow(vals, t, t + 1);
      LastOfSlices(vals, t);
      ForeseesFirst(p, vals, t - 2, t);
    }
  }

  // ----- The second predictor -----

  /** What each value is more than the one before it. */
  function Strides(last: Word, vals: seq<Word>): (strides: seq<Word>)
    ensures |strides| == |vals|
  {
    if vals == [] then [] else
      Strides(last, Init(vals)) + [Sub(Last(vals), Last([last] + Init(vals)))]
  }

  lemma {:induction false} StrideAt(last: Word, vals: seq<Word>, i: nat)
    requires 0 < i < |vals|
    ensures Strides(last, vals)[i] == Sub(vals[i], vals[i - 1])
  {
    hide Sub;
    if i < |vals| - 1 {
      StrideAt(last, Init(vals), i);
    }
  }

  lemma {:induction false} StridesOfPrefix(last: Word, vals: seq<Word>, t: nat)
    requires t <= |vals|
    ensures Strides(last, vals[..t]) == Strides(last, vals)[..t]
  {
    hide Sub;
    if t < |vals| {
      StridesOfPrefix(last, Init(vals), t);
      assert Init(vals)[..t] == vals[..t];
    } else {
      assert vals[..t] == vals;
    }
  }

  /** The second hash in front of a value. */
  function DHashAt(p: Predictor, vals: seq<Word>, t: nat): Word
    requires p.Valid() && t <= |vals|
  {
    After(p, vals[..t]).dhash
  }

  function DEntryAt(p: Predictor, vals: seq<Word>, t: nat, h: Word): Word
    requires p.Valid() && t <= |vals|
  {
    var table := After(p, vals[..t]).dfcm;
    if Index(h) < |table| then table[Index(h)] else 0
  }

  /** The second prediction for a value. */
  function SecondAt(p: Predictor, vals: seq<Word>, t: nat): Word
    requires p.Valid() && t <= |vals|
  {
    Add(After(p, vals[..t]).lastval, After(p, vals[..t]).pred2)
  }

  lemma {:induction false} LastvalIs(p: Predictor, vals: seq<Word>)
    requires p.Valid()
    ensures After(p, vals).lastval == Last([p.lastval] + vals) && After(p, vals).mask == p.mask
  {
    hide Index, NextHash, NextDHash, Sub, EncoderUpdate;
    if vals != [] {
      LastvalIs(p, Init(vals));
      UpdateParts(After(p, Init(vals)), Last(vals));
    }
  }

  lemma {:induction false} DHashIs(p: Predictor, vals: seq<Word>)
    requires p.Valid()
    ensures After(p, vals).dhash == DHashAfter(p.dhash, Strides(p.lastval, vals), p.mask)
  {
    hide Index, NextHash, NextDHash, Sub, EncoderUpdate;
    if vals != [] {
      DHashIs(p, Init(vals));
      LastvalIs(p, Init(vals));
      UpdateParts(After(p, Init(vals)), Last(vals));
      assert Init(Strides(p.lastval, vals)) == Strides(p.lastval, Init(vals));
    }
  }

  lemma {:induction false} DHashAfterBoth(h: Word, u: seq<Word>, v: seq<Word>, mask: Word)
    ensures DHashAfter(h, u + v, mask) == DHashAfter(DHashAfter(h, u, mask), v, mask)
  {
    hide NextDHash;
    if v == [] {
      assert u + v == u;
    } else {
      assert Init(u + v) == u + Init(v) && Last(u + v) == Last(v);
      DHashAfterBoth(h, u, Init(v), mask);
    }
  }

  lemma DHashAtIs(p: Predictor, vals: seq<Word>, t: nat)
    requires p.Valid() && t <= |vals|
    ensures DHashAt(p, vals, t) == DHashAfter(p.dhash, Strides(p.lastval, vals)[..t], p.mask)
  {
    hide After, DHashAfter, Index, Sub, Strides;
    DHashIs(p, vals[..t]);
    StridesOfPrefix(p.lastval, vals, t);
  }

  /** The second hash in front of a value depends on the last few strides alone. */
  lemma WindowDHash(level: Byte, p: Predictor, vals: seq<Word>, k: nat, t: nat)
    requires p.Valid() && level <= 62 && p.mask == TableMask(level)
    requires 0 < k <= t <= |vals| && level as nat <= 2 * k
    ensures DHashAt(p, vals, t) == DHashAfter(0, Strides(p.lastval, vals)[t - k..t], p.mask)
  {
    hide *;
    var strides := Strides(p.lastval, vals);
    DHashAtIs(p, vals, t);
    CutBefore(strides, k, t);
    DHashAfterBoth(p.dhash, strides[..t - k], strides[t - k..t], p.mask);
    DHashForgets(level, DHashAfter(p.dhash, strides[..t - k], p.mask), 0, strides[t - k..t]);
  }

  /** The second hash goes on with the stride between the last two values; the first stride is the first
      value itself, because the value before it counts as zero. */
  lemma DHashNext(p: Predictor, vals: seq<Word>, t: nat)
    requires p.Valid() && t < |vals|
    ensures DHashAt(p, vals, t + 1) == NextDHash(DHashAt(p, vals, t), Sub(vals[t], if t == 0 then p.lastval else vals[t - 1]), p.mask)
  {
    hide After, Index, NextHash, NextDHash, Sub, EncoderUpdate;
    LastvalIs(p, vals[..t]);
    AfterNext(p, vals, t);
    UpdateParts(After(p, vals[..t]), vals[t]);
  }

  lemma DEntryWritten(p: Predictor, vals: seq<Word>, t: nat)
    requires p.Valid() && t < |vals|
    ensures DEntryAt(p, vals, t + 1, DHashAt(p, vals, t)) == Sub(vals[t], if t == 0 then p.lastval else vals[t - 1])
  {
    hide After, Index, NextHash, NextDHash, Sub, EncoderUpdate;
    AfterNext(p, vals, t);
    LastvalIs(p, vals[..t]);
    UpdateParts(After(p, vals[..t]), vals[t]);
  }

  lemma DEntryUntouched(p: Predictor, vals: seq<Word>, t: nat, h: Word)
    requires p.Valid() && t < |vals| && h != DHashAt(p, vals, t)
    ensures DEntryAt(p, vals, t + 1, h) == DEntryAt(p, vals, t, h)
  {
    IndexInjective(h, DHashAt(p, vals, t));
    hide After, Index, NextHash, NextDHash, Sub, EncoderUpdate;
    AfterNext(p, vals, t);
    UpdateParts(After(p, vals[..t]), vals[t]);
  }

  /** The entry of the second hash stays the stride that followed it, until that hash comes again. */
  lemma {:induction false} DEntryKept(p: Predictor, vals: seq<Word>, s: nat, t: nat)
    requires p.Valid() && s < t <= |vals|
    requires forall u | s < u < t :: DHashAt(p, vals, u) != DHashAt(p, vals, s)
    ensures DEntryAt(p, vals, t, DHashAt(p, vals, s)) == Sub(vals[s], if s == 0 then p.lastval else vals[s - 1])
  {
    hide *;
    if s == t - 1 {
      DEntryWritten(p, vals, s);
    } else {
      DEntryKept(p, vals, s, t - 1);
      DEntryUntouched(p, vals, t - 1, DHashAt(p, vals, s));
    }
  }

  /** The second predictor foresees the stride that followed the same hash the last time. */
  lemma ForeseesSecond(p: Predictor, vals: seq<Word>, s: nat, t: nat)
    requires p.Valid() && s < t <= |vals|
    requires DHashAt(p, vals, s) == DHashAt(p, vals, t)
    requires forall u | s < u < t :: DHashAt(p, vals, u) != DHashAt(p, vals, s)
    ensures SecondAt(p, vals, t) == Add(vals[t - 1], Sub(vals[s], if s == 0 then p.lastval else vals[s - 1]))
  {
    hide *;
    SecondIsEntry(p, vals, t);
    DEntryKept(p, vals, s, t);
  }

  lemma SecondIsEntry(p: Predictor, vals: seq<Word>, t: nat)
    requires p.Valid() && 0 < t <= |vals|
    ensures SecondAt(p, vals, t) == Add(vals[t - 1], DEntryAt(p, vals, t, DHashAt(p, vals, t)))
  {
    hide After, Index, NextHash, NextDHash, Sub, Add, EncoderUpdate;
    LastvalIs(p, vals[..t]);
    AfterNext(p, vals, t - 1);
    UpdateParts(After(p, vals[..t - 1]), vals[t - 1]);
  }

  lemma {:induction false} DEntryUnseen(level: Byte, vals: seq<Word>, t: nat, h: Word)
    requires level <= 62 && t <= |vals| && forall u | 0 <= u < t :: DHashAt(Initial(level), vals, u) != h
    ensures DEntryAt(Initial(level), vals, t, h) == 0
  {
    hide *;
    if t == 0 {
      EntryAtStart(level, vals, h);
    } else {
      DEntryUnseen(level, vals, t - 1, h);
      DEntryUntouched(Initial(level), vals, t - 1, h);
    }
  }

  /** Behind a second hash never met before the second predictor foresees the last value again. */
  lemma UnseenSecond(level: Byte, vals: seq<Word>, t: nat)
    requires level <= 62 && t <= |vals|
    requires forall u | 0 <= u < t :: DHashAt(Initial(level), vals, u) != DHashAt(Initial(level), vals, t)
    ensures SecondAt(Initial(level), vals, t) == if t == 0 then 0 else vals[t - 1]
  {
    hide *;
    if t == 0 {
      StartsAtZero(level, vals);
    } else {
      DEntryUnseen(level, vals, t, DHashAt(Initial(level), vals, t));
      SecondIsEntry(Initial(level), vals, t);
      AddZero(vals[t - 1]);
    }
  }

  lemma AddZero(v: Word)
    ensures Add(v, 0) == v
  {
  }

  /** Values a constant stride apart. */
  predicate Steady(vals: seq<Word>, d: Word) {
    forall t | 0 < t < |vals| :: vals[t] == vals[t - 1] + d
  }

  lemma SteadyStride(vals: seq<Word>, d: Word, t: nat)
    requires Steady(vals, d) && 0 < t < |vals|
    ensures Sub(vals[t], vals[t - 1]) == d && Add(vals[t - 1], d) == vals[t]
  {
    assert vals[t] == vals[t - 1] + d;
    hide Steady;
    SubUndoes(vals[t - 1], d);
  }

  lemma SubUndoes(v: Word, d: Word)
    ensures Sub(v + d, v) == d && Add(v, d) == v + d
  {
  }

  lemma SteadyWindow(last: Word, vals: seq<Word>, d: Word, s: nat, t: nat)
    requires Steady(vals, d) && 0 < s < t < |vals|
    ensures Strides(last, vals)[s..t] == Strides(last, vals)[s + 1..t + 1]
  {
    hide *;
    var strides := Strides(last, vals);
    forall i | s <= i <= t
      ensures strides[i] == d
    {
      StrideAt(last, vals, i);
      SteadyStride(vals, d, i);
    }
  }

  /** Of values a constant stride apart, the second predictor foresees each one, from a few values on. */
  lemma StrideForeseen(level: Byte, p: Predictor, vals: seq<Word>, d: Word, k: nat, t: nat)
    requires p.Valid() && level <= 62 && p.mask == TableMask(level) && Steady(vals, d)
    requires 0 < k && level as nat <= 2 * k && k + 2 <= t < |vals|
    ensures SecondAt(p, vals, t) == vals[t]
  {
    hide *;
    WindowDHash(level, p, vals, k, t);
    WindowDHash(level, p, vals, k, t - 1);
    SteadyWindow(p.lastval, vals, d, t - 1 - k, t - 1);
    SecondIsEntry(p, vals, t);
    DEntryWritten(p, vals, t - 1);
    SteadyStride(vals, d, t - 1);
    SteadyStride(vals, d, t);
  }

  // ----- What that saves -----

  lemma CostsNothing(v: Word, w: Word)
    ensures Cost(Xor(v, w)) == 0 <==> v == w
  {
    hide Xor, Cost;
    XorZero(v, w);
    CostZero(Xor(v, w));
  }

  lemma XorZero(v: Word, w: Word)
    ensures Xor(v, w) == 0 <==> v == w
  {
    Bits.SameOrDifferent(v, w);
  }

  lemma CostZero(x: Word)
    ensures Cost(x) == 0 <==> x == 0
  {
    WidthValues(LengthCode(x));
  }

  lemma FirstCost(p: Predictor, vals: seq<Word>, t: nat)
    requires p.Valid() && t < |vals|
    ensures Cost(Xor1(After(p, vals[..t]), vals[t])) == 0 <==> FirstAt(p, vals, t) == vals[t]
  {
    CostsNothing(vals[t], After(p, vals[..t]).pred1);
    hide After, Cost, Xor;
  }

  lemma SecondCost(p: Predictor, vals: seq<Word>, t: nat)
    requires p.Valid() && t < |vals|
    ensures Cost(Xor2(After(p, vals[..t]), vals[t])) == 0 <==> SecondAt(p, vals, t) == vals[t]
  {
    CostsNothing(vals[t], Add(After(p, vals[..t]).lastval, After(p, vals[..t]).pred2));
    hide After, Cost, Xor, Add;
  }

  lemma FirstOnlyNext(p: Predictor, vals: seq<Word>, t: nat)
    requires p.Valid() && t < |vals|
    ensures FirstOnly(p, vals[..t + 1]) == FirstOnly(p, vals[..t]) + Cost(Xor1(After(p, vals[..t]), vals[t]))
    ensures SecondOnly(p, vals[..t + 1]) == SecondOnly(p, vals[..t]) + Cost(Xor2(After(p, vals[..t]), vals[t]))
  {
    hide After, Cost, Xor1, Xor2;
    assert Init(vals[..t + 1]) == vals[..t] && Last(vals[..t + 1]) == vals[t];
  }

  /** Any value costs at most eight bytes with either predictor. */
  lemma {:induction false} OnlyBound(p: Predictor, vals: seq<Word>)
    requires p.Valid()
    ensures FirstOnly(p, vals) <= 8 * |vals| && SecondOnly(p, vals) <= 8 * |vals|
  {
    hide After, Cost, Xor1, Xor2;
    if vals != [] {
      OnlyBound(p, Init(vals));
    }
  }

  /** What the first predictor costs over two values in turn: if its hash tells them apart, nothing
      after the first few; if not, at least a byte each. */
  lemma {:induction false} TurnsCost(level: Byte, p: Predictor, vals: seq<Word>, k: nat, t: nat)
    requires p.Valid() && level <= 62 && p.mask == TableMask(level) && InTurn(vals)
    requires 0 < k && level as nat <= 6 * k && k + 2 <= t <= |vals|
    ensures if vals[0] == vals[1] || !LooksAlike(vals[0], vals[1], p.mask) then FirstOnly(p, vals[..t]) == FirstOnly(p, vals[..k + 2])
            else FirstOnly(p, vals[..t]) >= FirstOnly(p, vals[..k + 2]) + t - (k + 2)
  {
    hide *;
    if k + 2 < t {
      TurnsCost(level, p, vals, k, t - 1);
      FirstOnlyNext(p, vals, t - 1);
      FirstCost(p, vals, t - 1);
      TurnsForeseen(level, p, vals, k, t - 1);
      AlikeInTurn(vals, p.mask, 1, t - 1);
    }
  }

  /** Over values a constant stride apart, the second predictor costs nothing after the first few. */
  lemma {:induction false} StrideCost(level: Byte, p: Predictor, vals: seq<Word>, d: Word, k: nat, t: nat)
    requires p.Valid() && level <= 62 && p.mask == TableMask(level) && Steady(vals, d)
    requires 0 < k && level as nat <= 2 * k && k + 2 <= t <= |vals|
    ensures SecondOnly(p, vals[..t]) == SecondOnly(p, vals[..k + 2])
  {
    hide *;
    if k + 2 < t {
      StrideCost(level, p, vals, d, k, t - 1);
      FirstOnlyNext(p, vals, t - 1);
      SecondCost(p, vals, t - 1);
      StrideForeseen(level, p, vals, d, k, t - 1);
    }
  }

  // ----- The stream -----

  /** The predictors carry over from what comes before. */
  lemma {:induction false} AfterBoth(p: Predictor, u: seq<Word>, v: seq<Word>)
    requires p.Valid()
    ensures After(p, u + v) == After(After(p, u), v)
  {
    hide EncoderUpdate, Index;
    if v == [] {
      assert u + v == u;
    } else {
      assert Init(u + v) == u + Init(v) && Last(u + v) == Last(v);
      AfterBoth(p, u, Init(v));
    }
  }

  lemma PayloadLast(p: Predictor, vals: seq<Word>)
    requires p.Valid() && vals != []
    ensures Payload(p, vals) == Payload(p, Init(vals)) + ResidualBytes(After(p, Init(vals)), Last(vals))
  {
    hide After, ResidualBytes, Index;
  }

  lemma {:induction false} PayloadBoth(p: Predictor, u: seq<Word>, v: seq<Word>)
    requires p.Valid()
    ensures Payload(p, u + v) == Payload(p, u) + Payload(After(p, u), v)
  {
    if v == [] {
      assert u + v == u && Payload(After(p, u), v) == [];
    } else {
      hide *;
      PayloadBoth(p, u, Init(v));
      AfterBoth(p, u, Init(v));
      PayloadLast(p, u + v);
      PayloadLast(After(p, u), v);
      EndsOf(u, v);
      Sequences.InThree(Payload(p, u), Payload(After(p, u), Init(v)), ResidualBytes(After(p, u + Init(v)), Last(v)));
    }
  }

  lemma EndsOf(u: seq<Word>, v: seq<Word>)
    requires v != []
    ensures Init(u + v) == u + Init(v) && Last(u + v) == Last(v)
  {
  }

  /** The number of blocks. */
  function BlockCount(b: BlockSize, w: nat): nat {
    if w == 0 then 0 else 1 + BlockCount(b, w - Min(w, b))
  }

  lemma {:induction false} BlockCountIs(b: BlockSize, w: nat)
    ensures BlockCount(b, w) == (w + b - 1) / b
  {
    if w == 0 {
      Remainder(b - 1, b, 0, b - 1);
    } else if w <= b {
      assert BlockCount(b, w - Min(w, b)) == 0;
      Remainder(w + b - 1, b, 1, w - 1);
    } else {
      BlockCountIs(b, w - b);
      var q := (w - 1) / b;
      Remainder(w + b - 1, b, q + 1, (w - 1) % b);
    }
  }

  lemma NoBlocks(b: BlockSize, p: Predictor, slot: Word)
    requires p.Valid()
    ensures EncodeBlocks(b, p, [], slot) == [] && Payload(p, []) == [] && BlockCount(b, 0) == 0
  {
  }

  lemma BlocksUnfold(b: BlockSize, p: Predictor, vals: seq<Word>, slot: Word)
    requires p.Valid() && vals != []
    ensures var n := BlockLength(b, vals);
            && n == Min(|vals|, b)
            && |EncodeBlocks(b, p, vals, slot)| == 6 + (n + 1) / 2 + |Payload(p, vals[..n])| + |EncodeBlocks(b, After(p, vals[..n]), vals[n..], slot)|
  {
    hide After, Payload, EncodeBlock;
  }

  lemma PayloadSplits(p: Predictor, vals: seq<Word>, n: nat)
    requires p.Valid() && n <= |vals|
    ensures |Payload(p, vals)| == |Payload(p, vals[..n])| + |Payload(After(p, vals[..n]), vals[n..])|
  {
    hide *;
    assert vals == vals[..n] + vals[n..];
    PayloadBoth(p, vals[..n], vals[n..]);
  }

  lemma Halves(b: BlockSize, w: nat)
    requires w > 0
    ensures BlockCount(b, w) == 1 + BlockCount(b, w - Min(w, b))
    ensures (Min(w, b) + 1) / 2 + (w - Min(w, b) + 1) / 2 == (w + 1) / 2
  {
    HalfBlock(b);
    if w > b {
      HalvesAdd(8 * (b / 16), w - b);
    }
  }

  lemma HalvesAdd(h: nat, r: nat)
    ensures (2 * h + 1) / 2 + (r + 1) / 2 == (2 * h + r + 1) / 2
  {
  }

  /** The exact length of the blocks of some values: six bytes for each block begun, half a byte for
      each value, and the residual bytes of all values, whatever the blocks. */
  lemma {:induction false} BlocksLength(b: BlockSize, p: Predictor, vals: seq<Word>, slot: Word)
    requires p.Valid()
    ensures |EncodeBlocks(b, p, vals, slot)| == 6 * BlockCount(b, |vals|) + (|vals| + 1) / 2 + |Payload(p, vals)|
    decreases |vals|
  {
    hide *;
    if vals == [] {
      NoBlocks(b, p, slot);
    } else {
      BlocksUnfold(b, p, vals, slot);
      var n := BlockLength(b, vals);
      BlocksLength(b, After(p, vals[..n]), vals[n..], slot);
      PayloadSplits(p, vals, n);
      Halves(b, |vals|);
    }
  }

  lemma EncodedLength(b: BlockSize, level: Byte, input: seq<Byte>, slot: Word)
    requires level <= 62
    ensures var w := |input| / 8;
            && Encode(b, level, input, slot)[0] == level
            && |Encode(b, level, input, slot)| == 1 + 6 * ((w + b - 1) / b) + (w + 1) / 2 + |Payload(Initial(level), WordsOf(input))|
  {
    hide EncodeBlocks, Initial, WordsOf, Payload;
    BlocksLength(b, Initial(level), WordsOf(input), slot);
    BlockCountIs(b, |input| / 8);
  }

  lemma StartsWithMask(level: Byte)
    requires level <= 62
    ensures Initial(level).mask == TableMask(level)
  {
    hide Index, TableMask;
  }

  lemma TurnsPayload(level: Byte, vals: seq<Word>, k: nat)
    requires level <= 62 && 0 < k && level as nat <= 6 * k
    requires k + 2 <= |vals| && InTurn(vals) && !LooksAlike(vals[0], vals[1], TableMask(level))
    ensures |Payload(Initial(level), vals)| <= 8 * (k + 2)
  {
    hide *;
    var p := Initial(level);
    StartsWithMask(level);
    TurnsCost(level, p, vals, k, |vals|);
    OnlyBound(p, vals[..k + 2]);
    assert vals[..|vals|] == vals;
    ChoosingIsBest(p, vals);
  }

  lemma StridePayload(level: Byte, vals: seq<Word>, d: Word, k: nat)
    requires level <= 62 && 0 < k && level as nat <= 2 * k
    requires k + 2 <= |vals| && Steady(vals, d)
    ensures |Payload(Initial(level), vals)| <= 8 * (k + 2)
  {
    hide *;
    var p := Initial(level);
    StartsWithMask(level);
    StrideCost(level, p, vals, d, k, |vals|);
    OnlyBound(p, vals[..k + 2]);
    assert vals[..|vals|] == vals;
    ChoosingIsBest(p, vals);
  }

  /** Two values in turn, of any number, take no more residual bytes than the first few values, if
      their upper sixteen bits differ in the low `level` ones. */
  lemma TurnsCompress(b: BlockSize, level: Byte, input: seq<Byte>, slot: Word, k: nat)
    requires level <= 62 && 0 < k && level as nat <= 6 * k && k + 2 <= |input| / 8
    requires InTurn(WordsOf(input))
    requires !LooksAlike(WordsOf(input)[0], WordsOf(input)[1], TableMask(level))
    ensures var w := |input| / 8;
            |Encode(b, level, input, slot)| <= 1 + 6 * ((w + b - 1) / b) + (w + 1) / 2 + 8 * (k + 2)
  {
    hide Encode, Payload, Initial, TableMask, LooksAlike, WordsOf, InTurn;
    TurnsPayload(level, WordsOf(input), k);
    EncodedLength(b, level, input, slot);
  }

  /** Values a constant stride apart, of any number, take no more residual bytes than the first few. */
  lemma StrideCompresses(b: BlockSize, level: Byte, input: seq<Byte>, slot: Word, d: Word, k: nat)
    requires level <= 62 && 0 < k && level as nat <= 2 * k && k + 2 <= |input| / 8
    requires Steady(WordsOf(input), d)
    ensures var w := |input| / 8;
            |Encode(b, level, input, slot)| <= 1 + 6 * ((w + b - 1) / b) + (w + 1) / 2 + 8 * (k + 2)
  {
    hide Encode, Payload, Initial, WordsOf, Steady;
    StridePayload(level, WordsOf(input), d, k);
    EncodedLength(b, level, input, slot);
  }

  // ----- The bytes of a stream -----

  /** A code byte holds the code of the first value of its pair in its upper half. */
  lemma CodeByteIs(high: Byte, low: Byte)
    requires high < 16 && low < 16
    ensures PairByte(high, low) as nat == 16 * (high as nat) + low as nat
  {
    Bits.Halves(high, low);
  }

  /** The residual is the smaller of two differences, as unsigned numbers, the first one when they are
      equal. */
  lemma ResidualIsLeast(p: Predictor, val: Word)
    ensures !Above(Residual(p, val), Xor1(p, val)) && !Above(Residual(p, val), Xor2(p, val))
    ensures Residual(p, val) == if Above(Xor1(p, val), Xor2(p, val)) then Xor2(p, val) else Xor1(p, val)
  {
    AboveIsStrict(Xor1(p, val), Xor2(p, val));
    AboveIsStrict(Residual(p, val), Residual(p, val));
    hide Xor1, Xor2, Above;
  }

  /** Eight is added to the length code where the second predictor was better. */
  lemma CodeIs(p: Predictor, val: Word)
    ensures Nibble(p, val) as nat == (if TakesSecond(p, val) then 8 else 0) + LengthCode(Residual(p, val)) as nat
  {
    hide LengthCode, Residual, TakesSecond;
    Bits.Flagged(LengthCode(Residual(p, val)));
  }
}
