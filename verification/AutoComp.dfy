/** The adaptive compressor: it samples a chunk now and then, sends chunks as they are after a poor sample,
    and asks the decision tree otherwise. */
module AutoComps {
  import opened Words
  import opened FileProcessors
  import opened Bytecountings
  import DecisionTrees

  // ----- The sample of a chunk -----

  function SubChunk(data: seq<Byte>, percent: nat): (sub: seq<Byte>)
    requires percent <= 90
    ensures |sub| == |data| / 10
  {
    assert percent * |data| / 100 + |data| / 10 <= |data| by { InBounds(|data|, percent); }
    data[percent * |data| / 100..percent * |data| / 100 + |data| / 10]
  }

  lemma InBounds(n: nat, percent: nat)
    requires percent <= 90
    ensures percent * n / 100 + n / 10 <= n
  {
    assert percent * n <= 90 * n;
    assert 90 * n / 100 + n / 10 <= n;
  }

  /** The average over a tenth of the chunk at each of three places, rounded. */
  function Sample(data: seq<Byte>): (count: nat) {
    var sum := Count(SubChunk(data, 10)) + Count(SubChunk(data, 45)) + Count(SubChunk(data, 80));
    (2 * sum + 3) / 6
  }

  /** The count nearest to a third of the sum over the three places: from a tenth, nine twentieths and
      four fifths of the way on, a tenth of the chunk each. */
  lemma SampleIs(data: seq<Byte>)
    ensures var n := |data|;
            && n / 10 + n / 10 <= n && 9 * n / 20 + n / 10 <= n && 4 * n / 5 + n / 10 <= n
            && var sum := Count(data[n / 10..n / 10 + n / 10]) + Count(data[9 * n / 20..9 * n / 20 + n / 10]) + Count(data[4 * n / 5..4 * n / 5 + n / 10]);
               sum - 1 <= 3 * Sample(data) <= sum + 1
  {
    hide Count;
    Places(|data|);
  }

  lemma Places(n: nat)
    ensures 10 * n / 100 == n / 10 && 45 * n / 100 == 9 * n / 20 && 80 * n / 100 == 4 * n / 5
    ensures n / 10 + n / 10 <= n && 9 * n / 20 + n / 10 <= n && 4 * n / 5 + n / 10 <= n
  {
  }

  method GetBytecounting(data: seq<Byte>) returns (count: nat)
    ensures count == Sample(data)
    ensures var n := |data|;
            && n / 10 + n / 10 <= n && 9 * n / 20 + n / 10 <= n && 4 * n / 5 + n / 10 <= n
            && var sum := Count(data[n / 10..n / 10 + n / 10]) + Count(data[9 * n / 20..9 * n / 20 + n / 10]) + Count(data[4 * n / 5..4 * n / 5 + n / 10]);
               sum - 1 <= 3 * count <= sum + 1
  {
    hide Count, SubChunk;
    SampleIs(data);
    var positions := [10, 45, 80];
    var sum := 0;
    for i := 0 to 3
      invariant sum == (if i > 0 then Count(SubChunk(data, 10)) else 0)
                       + (if i > 1 then Count(SubChunk(data, 45)) else 0)
                       + (if i > 2 then Count(SubChunk(data, 80)) else 0)
    {
      var n := Bytecounting(SubChunk(data, positions[i]));
      sum := sum + n;
    }
    count := (2 * sum + 3) / 6;
  }

  lemma SampleRange(data: seq<Byte>)
    ensures 1 <= Sample(data) <= 256
  {
    hide Count, SubChunk;
    CountIsPositive(SubChunk(data, 10));
    CountIsPositive(SubChunk(data, 45));
    CountIsPositive(SubChunk(data, 80));
  }

  /** A chunk of less than 2560 bytes counts 256, and so is sent as it is. */
  lemma SmallChunksCountFull(data: seq<Byte>)
    requires |data| < 2560
    ensures Sample(data) == 256
  {
    hide Count, SubChunk;
    ShortDataCountsFull(SubChunk(data, 10));
    ShortDataCountsFull(SubChunk(data, 45));
    ShortDataCountsFull(SubChunk(data, 80));
  }

  /** Chunks of the same size that agree in the three places have the same sample. */
  lemma OnlyPlacesMatter(u: seq<Byte>, v: seq<Byte>)
    requires |u| == |v|
    requires forall i | |u| / 10 <= i < |u| / 10 + |u| / 10 :: i < |u| && u[i] == v[i]
    requires forall i | 9 * |u| / 20 <= i < 9 * |u| / 20 + |u| / 10 :: i < |u| && u[i] == v[i]
    requires forall i | 4 * |u| / 5 <= i < 4 * |u| / 5 + |u| / 10 :: i < |u| && u[i] == v[i]
    ensures Sample(u) == Sample(v)
  {
    hide Count, Sample;
    var n := |u|;
    Places(n);
    SampleIs(u);
    SampleIs(v);
    assert u[n / 10..n / 10 + n / 10] == v[n / 10..n / 10 + n / 10];
    assert u[9 * n / 20..9 * n / 20 + n / 10] == v[9 * n / 20..9 * n / 20 + n / 10];
    assert u[4 * n / 5..4 * n / 5 + n / 10] == v[4 * n / 5..4 * n / 5 + n / 10];
  }

  /** 2560 zeros but for a one and a two at some offset. */
  function Speck(offset: nat): (data: seq<Byte>)
    requires offset <= 2558
    ensures |data| == 2560
  {
    Zeros(offset) + [1, 2] + Zeros(2558 - offset)
  }

  /** Each of the three places matters: two more values in two bytes there, and nowhere else, and the
      sample of a chunk of zeros is another one. */
  lemma EachPlaceMatters(offset: nat)
    requires offset == 256 || offset == 1152 || offset == 2048
    ensures Sample(Zeros(2560)) == 1 && Sample(Speck(offset)) == 2
  {
    hide Count, Sample, Zeros;
    SampleIs(Zeros(2560));
    SampleIs(Speck(offset));
    SpeckPlaces(offset);
    CountOfZeros(256);
    CountOfSpeck(254);
  }

  lemma SpeckPlaces(offset: nat)
    requires offset == 256 || offset == 1152 || offset == 2048
    ensures Zeros(2560)[256..512] == Zeros(2560)[1152..1408] == Zeros(2560)[2048..2304] == Zeros(256)
    ensures Speck(offset)[256..512] == if offset == 256 then [1, 2] + Zeros(254) else Zeros(256)
    ensures Speck(offset)[1152..1408] == if offset == 1152 then [1, 2] + Zeros(254) else Zeros(256)
    ensures Speck(offset)[2048..2304] == if offset == 2048 then [1, 2] + Zeros(254) else Zeros(256)
  {
  }

  lemma CountOfZeros(n: nat)
    requires n == 256
    ensures Count(Zeros(n)) == 1
  {
    var data := Zeros(n);
    HoldsAt(data, 0);
    CountOfFew(data, 1);
  }

  lemma CountOfSpeck(n: nat)
    requires n == 254
    ensures Count([1, 2] + Zeros(n)) == 3
  {
    var data := [1, 2] + Zeros(n);
    HoldsAt(data, 0);
    HoldsAt(data, 1);
    HoldsAt(data, 2);
    CountOfFew(data, 3);
  }

  // ----- When to sample -----

  /** Bytes to send before the next sample. */
  const PAUSE: nat := 512 * 1024

  /** The static counters. */
  datatype Sampler = Sampler(currentBytecounting: nat, remainingToCalculate: int, remainingUncompressed: int)

  /** A chunk as the sampler sees it: its size and what a sample of it would give. */
  datatype Piece = Piece(size: nat, count: nat)

  /** A chunk is passed over after a poor sample, sampled as poor or good, or treated like the last good
      sample. */
  datatype Verdict = PassedOver | Poor | Good | Reused

  const INITIAL: Sampler := Sampler(0, 0, 0)

  predicate Samples(s: Sampler) {
    s.remainingUncompressed <= 0 && s.remainingToCalculate <= 0
  }

  function Judge(s: Sampler, c: Piece): Verdict {
    if s.remainingUncompressed > 0 then PassedOver
    else if s.remainingToCalculate > 0 then Reused
    else if c.count > 100 then Poor
    else Good
  }

  function Step(s: Sampler, c: Piece): Sampler {
    match Judge(s, c)
    case PassedOver => s.(remainingUncompressed := s.remainingUncompressed - c.size)
    case Poor => s.(currentBytecounting := c.count, remainingUncompressed := PAUSE)
    case Good => s.(currentBytecounting := c.count, remainingToCalculate := PAUSE)
    case Reused => s.(remainingToCalculate := s.remainingToCalculate - c.size)
  }

  function After(s: Sampler, cs: seq<Piece>): Sampler {
    if cs == [] then s else Step(After(s, cs[..|cs| - 1]), cs[|cs| - 1])
  }

  function Bytes(cs: seq<Piece>): nat {
    if cs == [] then 0 else Bytes(cs[..|cs| - 1]) + cs[|cs| - 1].size
  }

  /** Only a good sample is kept for reuse, and the two pauses never overlap. */
  predicate Inv(s: Sampler) {
    && (s.remainingToCalculate > 0 ==> s.currentBytecounting <= 100)
    && !(s.remainingToCalculate > 0 && s.remainingUncompressed > 0)
  }

  lemma {:induction false} RunKeepsInv(s: Sampler, cs: seq<Piece>)
    requires Inv(s)
    ensures Inv(After(s, cs))
  {
    if cs != [] {
      RunKeepsInv(s, cs[..|cs| - 1]);
    }
  }

  /** In every run from the start, when a chunk is neither passed over nor poor, the count at hand is at most
      100: the classifier is never asked about more. */
  lemma ClassifierSeesLowCounts(cs: seq<Piece>, c: Piece)
    requires Judge(After(INITIAL, cs), c).Good? || Judge(After(INITIAL, cs), c).Reused?
    ensures Step(After(INITIAL, cs), c).currentBytecounting <= 100
  {
    RunKeepsInv(INITIAL, cs);
  }

  /** After a sample, as long as the chunks up to the one before the last have not made the pause full. */
  lemma {:induction false} DuringPause(s: Sampler, cs: seq<Piece>)
    requires Samples(s) && cs != []
    requires |cs| == 1 || Bytes(cs[1..|cs| - 1]) < PAUSE
    ensures After(s, cs) == if cs[0].count > 100 then Sampler(cs[0].count, s.remainingToCalculate, PAUSE - Bytes(cs[1..]))
                            else Sampler(cs[0].count, PAUSE - Bytes(cs[1..]), s.remainingUncompressed)
  {
    if |cs| == 1 {
      assert cs[..0] == [];
      assert After(s, cs[..0]) == s;
    } else {
      var init := cs[..|cs| - 1];
      assert init[1..] == cs[1..|cs| - 1];
      assert cs[1..][..|cs| - 2] == cs[1..|cs| - 1];
      if |init| > 1 {
        assert cs[1..|cs| - 1][..|cs| - 3] == init[1..|init| - 1];
      }
      DuringPause(s, init);
    }
  }

  /** After a sample, chunk `k` is the next one sampled exactly when the chunks in between have at least
      512 KiB and had less without the last of them, so that the pause is overshot by less than a chunk.
      Until then a poor sample has the chunks passed over, and a good one is reused; a chunk that is sampled
      counts for itself. */
  lemma PauseExactly(s: Sampler, cs: seq<Piece>, k: nat)
    requires Samples(s) && 1 <= k < |cs|
    requires k == 1 || Bytes(cs[1..k - 1]) < 524288
    ensures Samples(After(s, cs[..k])) <==> Bytes(cs[1..k]) >= 524288
    ensures Bytes(cs[1..k]) < 524288 + cs[k - 1].size
    ensures var at := if Bytes(cs[1..k]) >= 524288 then k else 0;
            && Step(After(s, cs[..k]), cs[k]).currentBytecounting == cs[at].count
            && Judge(After(s, cs[..k]), cs[k]) == if cs[at].count > 100 then (if at == k then Poor else PassedOver)
                                                  else (if at == k then Good else Reused)
  {
    var part := cs[..k];
    assert part[1..] == cs[1..k];
    if k > 1 {
      assert part[1..|part| - 1] == cs[1..k - 1];
      assert cs[1..k][..k - 2] == cs[1..k - 1];
    }
    DuringPause(s, part);
  }

  // ----- Levels -----

  /** A conversion to an integer cuts off the fraction. */
  function Truncate(x: real): int {
    if x < 0.0 then -(-x).Floor else x.Floor
  }

  function CPULoadLevel(cpuLoad: real): int {
    Truncate(cpuLoad * 100.0 / 10.0)
  }

  function BandwidthLevel(bandwidth: real): int {
    if bandwidth < 100.0 then Truncate(bandwidth / 5.0)
    else if bandwidth < 1000.0 then Truncate(bandwidth / 100.0 + 19.0)
    else 58
  }

  /** The levels on the scales of the features: tenths of the load, fives of the bandwidth below 100,
      hundreds below 1000, and tens of the count. */
  lemma LevelsAre(cpuLoad: real, bandwidth: real, count: nat)
    requires cpuLoad >= 0.0 && bandwidth >= 0.0
    ensures var p := RuntimePoint(cpuLoad, bandwidth, count);
            && p[0] as real <= 10.0 * cpuLoad < p[0] as real + 1.0
            && (bandwidth < 100.0 ==> 5.0 * p[1] as real <= bandwidth < 5.0 * p[1] as real + 5.0)
            && (100.0 <= bandwidth < 1000.0 ==> 100.0 * (p[1] - 19) as real <= bandwidth < 100.0 * (p[1] - 18) as real)
            && (1000.0 <= bandwidth ==> p[1] == 58)
            && 10 * p[2] <= count < 10 * p[2] + 10
  {
  }

  /** The level that the training data has for a bandwidth. */
  function TrainingBandwidthLevel(bandwidth: real): int {
    if bandwidth < 100.0 then Truncate(bandwidth / 5.0)
    else if bandwidth < 1000.0 then Truncate(bandwidth / 100.0 + 19.0)
    else 28
  }

  function BytecountingLevel(count: nat): nat {
    count / 10
  }

  function RuntimePoint(cpuLoad: real, bandwidth: real, count: nat): (p: DecisionTrees.Point)
    ensures |p| == 3
  {
    [CPULoadLevel(cpuLoad), BandwidthLevel(bandwidth), BytecountingLevel(count)]
  }

  function TrainingPoint(cpuLoad: real, bandwidth: real, count: nat): (p: DecisionTrees.Point)
    ensures |p| == 3
  {
    [CPULoadLevel(cpuLoad), TrainingBandwidthLevel(bandwidth), BytecountingLevel(count)]
  }

  /** Levels never fall as the bandwidth rises, and below 1000 they stay within the 29 levels of training. */
  lemma BandwidthLevelMonotone(a: real, b: real)
    requires 0.0 <= a <= b
    ensures 0 <= BandwidthLevel(a) <= BandwidthLevel(b)
    ensures BandwidthLevel(a) <= 28 <==> a < 1000.0
  {
    if a < 100.0 {
      assert a / 5.0 < 20.0;
    } else if a < 1000.0 {
      assert a / 100.0 + 19.0 < 29.0;
    }
  }

  /** The level 58 that training never saw acts like its highest level, 28, in every tree that tests the
      bandwidth against nothing from 28 up to 58. */
  lemma {:induction false} ActsAsTrained(tree: DecisionTrees.Tree, cpuLoad: real, bandwidth: real, count: nat, nChoices: nat)
    requires DecisionTrees.Fits(tree, 3, nChoices) && DecisionTrees.NoneBetween(tree, 1, 28, 58)
    ensures DecisionTrees.Eval(tree, RuntimePoint(cpuLoad, bandwidth, count), nChoices)
            == DecisionTrees.Eval(tree, TrainingPoint(cpuLoad, bandwidth, count), nChoices)
  {
    var p := RuntimePoint(cpuLoad, bandwidth, count);
    if bandwidth >= 1000.0 {
      DecisionTrees.Saturates(tree, p, 1, 28, 58, nChoices);
      assert p[1 := 58] == p;
      assert p[1 := 28] == TrainingPoint(cpuLoad, bandwidth, count);
    }
  }

  /** The level 58 acts like training's level 28 for every load, and every count the classifier is asked
      about, exactly when no part of the tree that such a point can reach tells the two levels apart. */
  lemma ActsAsTrainedExactly(tree: DecisionTrees.Tree, nChoices: nat)
    requires DecisionTrees.Fits(tree, 3, nChoices)
    ensures (forall cpuLoad, bandwidth, count: nat | 0.0 <= cpuLoad <= 1.0 && count <= 100 ::
               DecisionTrees.Eval(tree, RuntimePoint(cpuLoad, bandwidth, count), nChoices)
               == DecisionTrees.Eval(tree, TrainingPoint(cpuLoad, bandwidth, count), nChoices))
            <==> DecisionTrees.SameInBox(tree, tree, 58, 28, DecisionTrees.Box(0, 10, 0, 10))
  {
    var box := DecisionTrees.Box(0, 10, 0, 10);
    DecisionTrees.SameInBoxExactly(tree, tree, 58, 28, box, nChoices);
    hide DecisionTrees.SameInBox, DecisionTrees.Eval, DecisionTrees.Fits;
    if DecisionTrees.SameInBox(tree, tree, 58, 28, box) {
      forall cpuLoad, bandwidth, count: nat | 0.0 <= cpuLoad <= 1.0 && count <= 100
        ensures DecisionTrees.Eval(tree, RuntimePoint(cpuLoad, bandwidth, count), nChoices)
                == DecisionTrees.Eval(tree, TrainingPoint(cpuLoad, bandwidth, count), nChoices)
      {
        LevelsInBox(cpuLoad, bandwidth, count);
      }
    }
    if forall cpuLoad, bandwidth, count: nat | 0.0 <= cpuLoad <= 1.0 && count <= 100 ::
         DecisionTrees.Eval(tree, RuntimePoint(cpuLoad, bandwidth, count), nChoices)
         == DecisionTrees.Eval(tree, TrainingPoint(cpuLoad, bandwidth, count), nChoices) {
      forall a, c | DecisionTrees.Inside(box, a, c)
        ensures DecisionTrees.Eval(tree, [a, 58, c], nChoices) == DecisionTrees.Eval(tree, [a, 28, c], nChoices)
      {
        LevelsReached(a, c);
        assert DecisionTrees.Eval(tree, RuntimePoint(a as real / 10.0, 1000.0, 10 * c), nChoices)
            == DecisionTrees.Eval(tree, TrainingPoint(a as real / 10.0, 1000.0, 10 * c), nChoices);
      }
    }
  }

  lemma LevelsInBox(cpuLoad: real, bandwidth: real, count: nat)
    requires 0.0 <= cpuLoad <= 1.0 && count <= 100
    ensures var r, t := RuntimePoint(cpuLoad, bandwidth, count), TrainingPoint(cpuLoad, bandwidth, count);
            && DecisionTrees.Inside(DecisionTrees.Box(0, 10, 0, 10), r[0], r[2])
            && (r == t || (r == [r[0], 58, r[2]] && t == [r[0], 28, r[2]]))
  {
    assert cpuLoad * 100.0 / 10.0 == 10.0 * cpuLoad;
  }

  lemma LevelsReached(a: nat, c: nat)
    requires a <= 10
    ensures RuntimePoint(a as real / 10.0, 1000.0, 10 * c) == [a, 58, c]
    ensures TrainingPoint(a as real / 10.0, 1000.0, 10 * c) == [a, 28, c]
  {
    assert a as real / 10.0 * 100.0 / 10.0 == a as real;
  }

  /** A tree with a single test on the bandwidth. */
  function OneTest(threshold: real): (tree: DecisionTrees.Tree)
    ensures DecisionTrees.Fits(tree, 3, 2)
  {
    DecisionTrees.Branch(1, threshold, DecisionTrees.Leaf(0), DecisionTrees.Leaf(1))
  }

  /** So a single test tells the two levels apart if its threshold is in between. */
  lemma OneTestTellsApart(threshold: real, cpuLoad: real, bandwidth: real, count: nat)
    requires bandwidth >= 1000.0
    ensures DecisionTrees.Eval(OneTest(threshold), RuntimePoint(cpuLoad, bandwidth, count), 2)
            == DecisionTrees.Eval(OneTest(threshold), TrainingPoint(cpuLoad, bandwidth, count), 2)
            <==> DecisionTrees.NoneBetween(OneTest(threshold), 1, 28, 58)
  {
    hide CPULoadLevel;
    assert DecisionTrees.NoneBetween(OneTest(threshold), 1, 28, 58) <==> !(28.0 <= threshold < 58.0);
  }

  // ----- The compressor -----

  /** What the compressor reads of its surroundings when a chunk comes. */
  datatype Load = Load(cpuLoad: real, bandwidth: real, sendBuffer: real)

  datatype Decision = Copy | Use(choice: DecisionTrees.Choice)

  /** The choice for a chunk that is worth compressing: a fast compressor while the send buffer is nearly
      empty, and otherwise the tree's, if it is at hand. */
  ghost function Decide(tree: DecisionTrees.DecisionTree, compressors: set<DecisionTrees.Choice>, load: Load, count: nat): Decision
    requires tree.Valid() && tree.nFeatures == 3
  {
    if load.sendBuffer < 0.05 then (if DecisionTrees.Choice(ZLIB, 3) in compressors then Use(DecisionTrees.Choice(ZLIB, 3)) else Copy)
    else
      var choice := tree.compressors[DecisionTrees.Eval(tree.Tree(), RuntimePoint(load.cpuLoad, load.bandwidth, count), |tree.compressors|)];
      if choice.compressor != COPY && choice in compressors then Use(choice) else Copy
  }

  class AutoCompCompressor {
    const decisionTree: DecisionTrees.DecisionTree
    const compressors: set<DecisionTrees.Choice>
    var currentBytecounting: nat
    var remainingBytesToCalculateAgain: int
    var remainingBytesToSendUncompressed: int

    function State(): Sampler
      reads this
    {
      Sampler(currentBytecounting, remainingBytesToCalculateAgain, remainingBytesToSendUncompressed)
    }

    constructor (decisionTree: DecisionTrees.DecisionTree)
      ensures this.decisionTree == decisionTree && State() == INITIAL
      ensures forall c :: c in compressors <==>
                || (c.compressor == SNAPPY && c.level == -1)
                || (c.compressor == ZLIB && 0 <= c.level <= 9)
                || (c.compressor in {LZO, BZIP2, LZMA} && 1 <= c.level <= 9)
    {
      var all := {DecisionTrees.Choice(SNAPPY, -1), DecisionTrees.Choice(ZLIB, 0)};
      for level := 1 to 10
        invariant forall c :: c in all <==>
                    || (c.compressor == SNAPPY && c.level == -1)
                    || (c.compressor == ZLIB && 0 <= c.level < level)
                    || (c.compressor in {LZO, BZIP2, LZMA} && 1 <= c.level < level)
      {
        all := all + {DecisionTrees.Choice(ZLIB, level)};
        all := all + {DecisionTrees.Choice(LZO, level)};
        all := all + {DecisionTrees.Choice(BZIP2, level)};
        all := all + {DecisionTrees.Choice(LZMA, level)};
      }
      this.decisionTree, compressors := decisionTree, all;
      currentBytecounting, remainingBytesToCalculateAgain, remainingBytesToSendUncompressed := 0, 0, 0;
    }

    /** What to do with a chunk. */
    method Compress(inData: seq<Byte>, load: Load) returns (decision: Decision)
      requires decisionTree.Valid() && decisionTree.nFeatures == 3
      modifies this
      ensures State() == Step(old(State()), Piece(|inData|, Sample(inData)))
      ensures var verdict := Judge(old(State()), Piece(|inData|, Sample(inData)));
              decision == if verdict.PassedOver? || verdict.Poor? then Copy else Decide(decisionTree, compressors, load, currentBytecounting)
      ensures old(remainingBytesToSendUncompressed) > 0 ==>
                && decision == Copy
                && remainingBytesToSendUncompressed == old(remainingBytesToSendUncompressed) - |inData|
                && remainingBytesToCalculateAgain == old(remainingBytesToCalculateAgain) && currentBytecounting == old(currentBytecounting)
      ensures old(remainingBytesToSendUncompressed) <= 0 < old(remainingBytesToCalculateAgain) ==>
                && remainingBytesToCalculateAgain == old(remainingBytesToCalculateAgain) - |inData|
                && remainingBytesToSendUncompressed == old(remainingBytesToSendUncompressed) && currentBytecounting == old(currentBytecounting)
      ensures old(remainingBytesToSendUncompressed) <= 0 && old(remainingBytesToCalculateAgain) <= 0 ==>
                && currentBytecounting == Sample(inData)
                && (if currentBytecounting > 100 then
                      remainingBytesToSendUncompressed == 524288 && remainingBytesToCalculateAgain == old(remainingBytesToCalculateAgain) && decision == Copy
                    else
                      remainingBytesToSendUncompressed == old(remainingBytesToSendUncompressed) && remainingBytesToCalculateAgain == 524288)
      ensures old(remainingBytesToSendUncompressed) <= 0 && (old(remainingBytesToCalculateAgain) > 0 || currentBytecounting <= 100) ==>
                if load.sendBuffer < 0.05 then decision == if DecisionTrees.Choice(ZLIB, 3) in compressors then Use(DecisionTrees.Choice(ZLIB, 3)) else Copy
                else
                  forall path | DecisionTrees.IsWay(decisionTree.nodes, RuntimePoint(load.cpuLoad, load.bandwidth, currentBytecounting), 0, path) ::
                    var last := decisionTree.nodes[path[|path| - 1]].value;
                    0 <= last < |decisionTree.compressors| &&
                    var choice := decisionTree.compressors[last];
                    decision == if choice.compressor != COPY && choice in compressors then Use(choice) else Copy
    {
      hide Sample, RuntimePoint, DecisionTrees.IsWay;
      if remainingBytesToSendUncompressed > 0 {
        remainingBytesToSendUncompressed := remainingBytesToSendUncompressed - |inData|;
        return Copy;
      }
      if remainingBytesToCalculateAgain <= 0 {
        currentBytecounting := GetBytecounting(inData);
        if currentBytecounting > 100 {
          remainingBytesToSendUncompressed := PAUSE;
          return Copy;
        }
        remainingBytesToCalculateAgain := PAUSE;
      } else {
        remainingBytesToCalculateAgain := remainingBytesToCalculateAgain - |inData|;
      }
      if load.sendBuffer < 0.05 {
        if DecisionTrees.Choice(ZLIB, 3) !in compressors {
          return Copy;
        }
        return Use(DecisionTrees.Choice(ZLIB, 3));
      }
      var choice := decisionTree.Classify(RuntimePoint(load.cpuLoad, load.bandwidth, currentBytecounting));
      if choice.value.compressor == COPY {
        return Copy;
      }
      decision := if choice.value in compressors then Use(choice.value) else Copy;
    }
  }

  /** A small chunk that is sampled is never compressed. */
  lemma SmallChunksArePoor(s: Sampler, data: seq<Byte>)
    requires Samples(s) && |data| < 2560
    ensures Judge(s, Piece(|data|, Sample(data))) == Poor
  {
    SmallChunksCountFull(data);
  }
}
