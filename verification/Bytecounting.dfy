/** How many byte values occur often in a piece of data: a quick measure of how well it compresses. */
module Bytecountings {
  import opened Words

  function Occurrences(data: seq<Byte>, value: nat): (n: nat)
    ensures n <= |data|
  {
    if data == [] then 0 else Occurrences(data[..|data| - 1], value) + if data[|data| - 1] as nat == value then 1 else 0
  }

  /** How many of the first `k` byte values occur at least `threshold` times. */
  function Frequent(data: seq<Byte>, threshold: nat, k: nat): (n: nat)
    ensures n <= k
  {
    if k == 0 then 0 else Frequent(data, threshold, k - 1) + if Occurrences(data, k - 1) >= threshold then 1 else 0
  }

  /** The byte values that occur at least as often as in evenly spread data. */
  function Count(data: seq<Byte>): nat {
    Frequent(data, |data| / 256, 256)
  }

  method CountOccurrences(data: seq<Byte>) returns (occurrences: array<nat>)
    ensures fresh(occurrences) && occurrences.Length == 256
    ensures forall value | 0 <= value < 256 :: occurrences[value] == Occurrences(data, value)
  {
    occurrences := new nat[256](value => 0);
    for i := 0 to |data|
      invariant forall value | 0 <= value < 256 :: occurrences[value] == Occurrences(data[..i], value)
    {
      assert data[..i + 1][..i] == data[..i];
      occurrences[data[i] as int] := occurrences[data[i] as int] + 1;
    }
    assert data[..|data|] == data;
  }

  method Bytecounting(data: seq<Byte>) returns (bytecount: nat)
    ensures bytecount == Count(data)
  {
    var occurrences := CountOccurrences(data);
    var threshold := |data| / 256;
    bytecount := 0;
    for i := 0 to 256
      invariant bytecount == Frequent(data, threshold, i)
    {
      if occurrences[i] >= threshold {
        bytecount := bytecount + 1;
      }
    }
  }

  // ----- What the count means -----

  function Total(data: seq<Byte>, k: nat): nat {
    if k == 0 then 0 else Total(data, k - 1) + Occurrences(data, k - 1)
  }

  lemma {:induction false} TotalAdd(data: seq<Byte>, k: nat)
    requires data != []
    ensures Total(data, k) == Total(data[..|data| - 1], k) + if (data[|data| - 1] as nat) < k then 1 else 0
  {
    if k > 0 {
      TotalAdd(data, k - 1);
    }
  }

  /** Every byte has one of the 256 values. */
  lemma {:induction false} TotalIsLength(data: seq<Byte>)
    ensures Total(data, 256) == |data|
  {
    if data == [] {
      NothingOccurs(256);
    } else {
      TotalAdd(data, 256);
      TotalIsLength(data[..|data| - 1]);
    }
  }

  lemma {:induction false} NothingOccurs(k: nat)
    ensures Total([], k) == 0
  {
    if k > 0 {
      NothingOccurs(k - 1);
    }
  }

  lemma {:induction false} RareValues(data: seq<Byte>, threshold: nat, k: nat)
    requires Frequent(data, threshold, k) == 0 && k > 0
    ensures Total(data, k) <= k * (threshold - 1) && threshold > 0
  {
    if k > 1 {
      RareValues(data, threshold, k - 1);
    } else {
      assert Total(data, 1) == Total(data, 0) + Occurrences(data, 0);
    }
  }

  /** Some value always occurs often enough. */
  lemma CountIsPositive(data: seq<Byte>)
    ensures 1 <= Count(data) <= 256
  {
    if Count(data) == 0 {
      RareValues(data, |data| / 256, 256);
      TotalIsLength(data);
    }
  }

  lemma {:induction false} AllFrequent(data: seq<Byte>, k: nat)
    ensures Frequent(data, 0, k) == k
  {
    if k > 0 {
      AllFrequent(data, k - 1);
    }
  }

  /** The count is full exactly when every value occurs often enough. */
  lemma FullExactly(data: seq<Byte>, threshold: nat, k: nat)
    ensures Frequent(data, threshold, k) == k <==> forall value | 0 <= value < k :: Occurrences(data, value) >= threshold
  {
    if Frequent(data, threshold, k) == k {
      forall value | 0 <= value < k
        ensures Occurrences(data, value) >= threshold
      {
        FullCounts(data, threshold, k, value);
      }
    } else {
      var value := RareValue(data, threshold, k);
      assert Occurrences(data, value) < threshold;
    }
  }

  lemma {:induction false} FullCounts(data: seq<Byte>, threshold: nat, k: nat, value: nat)
    requires Frequent(data, threshold, k) == k && value < k
    ensures Occurrences(data, value) >= threshold
  {
    if value < k - 1 {
      FullCounts(data, threshold, k - 1, value);
    }
  }

  lemma {:induction false} RareValue(data: seq<Byte>, threshold: nat, k: nat) returns (value: nat)
    requires Frequent(data, threshold, k) < k
    ensures value < k && Occurrences(data, value) < threshold
  {
    if Occurrences(data, k - 1) < threshold {
      value := k - 1;
    } else {
      value := RareValue(data, threshold, k - 1);
    }
  }

  /** Less than 256 bytes count as if every value occurred. */
  lemma ShortDataCountsFull(data: seq<Byte>)
    requires |data| < 256
    ensures Count(data) == 256
  {
    AllFrequent(data, 256);
  }

  // ----- What the functions count -----

  /** The places that hold a value. */
  ghost function Places(data: seq<Byte>, value: nat): set<nat> {
    set i: nat | i < |data| && data[i] as nat == value
  }

  lemma {:induction false} OccurrencesArePlaces(data: seq<Byte>, value: nat)
    ensures Occurrences(data, value) == |Places(data, value)|
  {
    if data == [] {
      assert Places(data, value) == {};
    } else {
      OccurrencesArePlaces(data[..|data| - 1], value);
      OnePlaceMore(data, value);
      hide Places;
    }
  }

  lemma OnePlaceMore(data: seq<Byte>, value: nat)
    requires data != []
    ensures var last := |data| - 1;
            |Places(data, value)| == |Places(data[..last], value)| + if data[last] as nat == value then 1 else 0
  {
    var last := |data| - 1;
    var before := Places(data[..last], value);
    if data[last] as nat == value {
      assert Places(data, value) == before + {last};
    } else {
      assert Places(data, value) == before;
    }
  }

  /** The values below `k` that occur often enough. */
  ghost function Values(data: seq<Byte>, threshold: nat, k: nat): set<nat> {
    set v: nat | v < k && Occurrences(data, v) >= threshold
  }

  lemma {:induction false} FrequentAreValues(data: seq<Byte>, threshold: nat, k: nat)
    ensures Frequent(data, threshold, k) == |Values(data, threshold, k)|
  {
    if k == 0 {
      assert Values(data, threshold, k) == {};
    } else {
      FrequentAreValues(data, threshold, k - 1);
      var before := Values(data, threshold, k - 1);
      if Occurrences(data, k - 1) >= threshold {
        assert Values(data, threshold, k) == before + {k - 1};
      } else {
        assert Values(data, threshold, k) == before;
      }
    }
  }

  /** The count is the number of byte values that at least a 256th of the places hold, rounded down. */
  lemma CountIsValues(data: seq<Byte>)
    ensures Count(data) == |(set v: nat | v < 256 && 256 * |Places(data, v)| + 256 > |data|)|
  {
    var values := set v: nat | v < 256 && 256 * |Places(data, v)| + 256 > |data|;
    forall v: nat
      ensures Occurrences(data, v) == |Places(data, v)|
    {
      OccurrencesArePlaces(data, v);
    }
    hide Occurrences, Frequent, Places;
    FrequentAreValues(data, |data| / 256, 256);
    assert values == Values(data, |data| / 256, 256);
  }

  lemma {:induction false} HoldsAt(data: seq<Byte>, i: nat)
    requires i < |data|
    ensures Occurrences(data, data[i] as nat) >= 1
  {
    if i < |data| - 1 {
      HoldsAt(data[..|data| - 1], i);
    }
  }

  lemma {:induction false} NotOnce(data: seq<Byte>, value: nat)
    requires forall i | 0 <= i < |data| :: data[i] as nat != value
    ensures Occurrences(data, value) == 0
  {
    if data != [] {
      NotOnce(data[..|data| - 1], value);
    }
  }

  lemma {:induction false} FewAreFrequent(data: seq<Byte>, few: nat, k: nat)
    requires few <= k && forall i | 0 <= i < |data| :: (data[i] as nat) < few
    requires forall v | 0 <= v < few :: Occurrences(data, v) >= 1
    ensures Frequent(data, 1, few) == few && Frequent(data, 1, k) == few
    decreases k
  {
    AllAreFrequent(data, few);
    if few < k {
      FewAreFrequent(data, few, k - 1);
      NotOnce(data, k - 1);
    }
  }

  lemma {:induction false} AllAreFrequent(data: seq<Byte>, k: nat)
    requires forall v | 0 <= v < k :: Occurrences(data, v) >= 1
    ensures Frequent(data, 1, k) == k
  {
    if k > 0 {
      AllAreFrequent(data, k - 1);
    }
  }

  /** Of 256 bytes that hold only the first few values, and each of these, the count is those few. */
  lemma CountOfFew(data: seq<Byte>, few: nat)
    requires |data| == 256 && few <= 256 && forall i | 0 <= i < |data| :: (data[i] as nat) < few
    requires forall v | 0 <= v < few :: Occurrences(data, v) >= 1
    ensures Count(data) == few
  {
    FewAreFrequent(data, few, 256);
  }
}
