/** The order in which oracles may publish (servers/oracle/src/select_next.py).

    The hash is the 32-byte SHA-256 digest of the block hash, here an arbitrary byte string.
    A first loop shuffles the oracles with one hash byte per pick; a second loop finds the
    stake bucket that the whole hash, read as one number, falls into. */
module SelectNext {
  import opened Prelude
  import Encoding

  datatype OracleInfo = OracleInfo(addr: string, stake: nat, selectedInCurrentRound: bool)

  datatype SelectError = TooManyOracles

  const HASH_BYTES: nat := 32
  const MAX_INT: nat := 0xFFFFFFFFFFFFFFFFFFFFFFFFFFFFFFFFFFFFFFFFFFFFFFFFFFFFFFFFFFFFFFFF

  /** A 32-byte SHA-256 digest. */
  type Digest = hb: seq<Byte> | |hb| == HASH_BYTES witness seq(HASH_BYTES, _ => 0)

  // ----- The shuffle

  /** `b % n`, by subtraction: the proofs about the shuffle need only that it is below n. */
  function Residue(b: nat, n: nat): (r: nat)
    requires n > 0
    ensures r < n
    ensures b < n ==> r == b
  {
    if b < n then b else Residue(b - n, n)
  }

  lemma {:induction false} ResidueQuotient(b: nat, n: nat) returns (q: nat)
    requires n > 0
    ensures b == n * q + Residue(b, n)
  {
    if b < n {
      q := 0;
    } else {
      var p := ResidueQuotient(b - n, n);
      q := p + 1;
      assert n * q == n * p + n;
    }
  }

  lemma {:induction false} ResidueIsModulo(b: nat, n: nat)
    requires n > 0
    ensures Residue(b, n) == b % n
  {
    var q := ResidueQuotient(b, n);
    var r := Residue(b, n);
    assert b == n * (b / n) + b % n;
    assert n * (q - b / n) == b % n - r;
    if q > b / n {
      MulMonotone(n, 1, q - b / n);
    } else if q < b / n {
      MulMonotone(n, 1, b / n - q);
    }
  }

  /** L2: pick position `hb[0] % |l1|`, remove it, go on with the next byte. */
  function Shuffle<T>(l1: seq<T>, hb: seq<nat>): (l2: seq<T>)
    requires |l1| <= |hb|
    ensures |l2| == |l1|
  {
    if l1 == [] then [] else
      var k := Residue(hb[0], |l1|);
      [l1[k]] + Shuffle(RemoveAt(l1, k), hb[1..])
  }

  lemma {:induction false} ShufflePermutes<T>(l1: seq<T>, hb: seq<nat>)
    requires |l1| <= |hb|
    ensures multiset(Shuffle(l1, hb)) == multiset(l1)
  {
    if l1 != [] {
      var k := Residue(hb[0], |l1|);
      RemoveAtMultiset(l1, k);
      ShufflePermutes(RemoveAt(l1, k), hb[1..]);
    }
  }

  /** The only part of the hash bytes the shuffle looks at. */
  function Residues(hb: seq<nat>, n: nat): (c: seq<nat>)
    requires n <= |hb|
    ensures |c| == n
  {
    if n == 0 then [] else [Residue(hb[0], n)] + Residues(hb[1..], n - 1)
  }

  /** They are the bytes themselves, each modulo the number of oracles left. */
  lemma {:induction false} ResiduesAreModuli(hb: seq<nat>, n: nat, i: nat)
    requires i < n <= |hb|
    ensures Residues(hb, n)[i] == hb[i] % (n - i)
  {
    if i == 0 {
      ResidueIsModulo(hb[0], n);
    } else {
      ResiduesAreModuli(hb[1..], n - 1, i - 1);
    }
  }

  function IndexOf<T(==)>(s: seq<T>, x: T): (i: nat)
    requires x in s
    ensures i < |s| && s[i] == x && x !in s[..i]
  {
    if s[0] == x then 0 else 1 + IndexOf(s[1..], x)
  }

  /** The Lehmer code of the permutation `p` of `l1`. */
  function LehmerCode<T(==)>(l1: seq<T>, p: seq<T>): (c: seq<nat>)
    requires multiset(l1) == multiset(p)
    ensures |c| == |p| == |l1|
    ensures forall i :: 0 <= i < |c| ==> c[i] < |l1| - i
  {
    SameMultisetSameLength(l1, p);
    if p == [] then [] else
      assert p[0] in multiset(l1);
      var k := IndexOf(l1, p[0]);
      DropHeadFromBoth(l1, p, k);
      [k] + LehmerCode(RemoveAt(l1, k), p[1..])
  }

  lemma SameMultisetSameLength<T>(a: seq<T>, b: seq<T>)
    requires multiset(a) == multiset(b)
    ensures |a| == |b|
  {
    assert |a| == |multiset(a)| == |multiset(b)| == |b|;
  }

  lemma DropHeadFromBoth<T>(l1: seq<T>, p: seq<T>, k: nat)
    requires multiset(l1) == multiset(p) && p != [] && k < |l1| && l1[k] == p[0]
    ensures multiset(RemoveAt(l1, k)) == multiset(p[1..])
  {
    RemoveAtMultiset(l1, k);
    assert p == [p[0]] + p[1..];
    assert multiset(p) == multiset{p[0]} + multiset(p[1..]);
    assert multiset(p[1..]) == multiset(p) - multiset{p[0]};
    assert multiset(RemoveAt(l1, k)) == multiset(l1) - multiset{l1[k]};
  }

  lemma SmallMod(a: nat, n: nat)
    requires a < n
    ensures a % n == a
  {}

  /** Every permutation is the shuffle under its own Lehmer code. */
  lemma {:induction false} ShuffleOfLehmerCode<T>(l1: seq<T>, p: seq<T>)
    requires multiset(l1) == multiset(p)
    ensures Shuffle(l1, LehmerCode(l1, p)) == p
    decreases |p|
  {
    SameMultisetSameLength(l1, p);
    if p != [] {
      assert p[0] in multiset(l1);
      var k := IndexOf(l1, p[0]);
      DropHeadFromBoth(l1, p, k);
      ShuffleOfLehmerCode(RemoveAt(l1, k), p[1..]);
    }
  }

  /** On distinct oracles the residues of the hash can be read back from the order. */
  lemma {:induction false} LehmerCodeOfShuffle<T>(l1: seq<T>, hb: seq<nat>)
    requires |l1| <= |hb| && Distinct(l1)
    ensures multiset(Shuffle(l1, hb)) == multiset(l1)
    ensures LehmerCode(l1, Shuffle(l1, hb)) == Residues(hb, |l1|)
    decreases |l1|
  {
    ShufflePermutes(l1, hb);
    if l1 != [] {
      var k := Residue(hb[0], |l1|);
      var p := Shuffle(l1, hb);
      ShufflePermutes(RemoveAt(l1, k), hb[1..]);
      assert IndexOf(l1, p[0]) == k;
      RemoveAtDistinct(l1, k);
      RemoveAtMultiset(l1, k);
      assert p[1..] == Shuffle(RemoveAt(l1, k), hb[1..]);
      LehmerCodeOfShuffle(RemoveAt(l1, k), hb[1..]);
    }
  }

  /** The shuffle is a function of the residues, so no byte after the |l1|-th is read. */
  lemma {:induction false} ShuffleReadsOnlyResidues<T>(l1: seq<T>, h1: seq<nat>, h2: seq<nat>)
    requires |l1| <= |h1| && |l1| <= |h2|
    requires Residues(h1, |l1|) == Residues(h2, |l1|)
    ensures Shuffle(l1, h1) == Shuffle(l1, h2)
    decreases |l1|
  {
    if l1 != [] {
      var r1, r2 := Residues(h1, |l1|), Residues(h2, |l1|);
      assert r1[0] == r2[0] && r1[1..] == r2[1..];
      ShuffleReadsOnlyResidues(RemoveAt(l1, r1[0]), h1[1..], h2[1..]);
    }
  }

  lemma {:induction false} ResiduesOfLehmerCode(c: seq<nat>, tail: seq<nat>)
    requires forall i :: 0 <= i < |c| ==> c[i] < |c| - i
    ensures Residues(c + tail, |c|) == c
    decreases |c|
  {
    if c != [] {
      var rest := c[1..];
      assert (c + tail)[1..] == rest + tail;
      forall i | 0 <= i < |rest| ensures rest[i] < |rest| - i {
        assert rest[i] == c[i + 1];
      }
      ResiduesOfLehmerCode(rest, tail);
      assert Residues(c + tail, |c|) == [c[0]] + rest;
    }
  }

  /** One-to-one: two hashes order the same distinct oracles alike exactly when their residues agree. */
  lemma {:induction false} ShuffleOneToOne<T>(l1: seq<T>, h1: seq<nat>, h2: seq<nat>)
    requires |l1| <= |h1| && |l1| <= |h2| && Distinct(l1)
    ensures Shuffle(l1, h1) == Shuffle(l1, h2) <==> Residues(h1, |l1|) == Residues(h2, |l1|)
  {
    LehmerCodeOfShuffle(l1, h1);
    LehmerCodeOfShuffle(l1, h2);
    if Residues(h1, |l1|) == Residues(h2, |l1|) {
      ShuffleReadsOnlyResidues(l1, h1, h2);
    }
  }

  /** A code is the residues of itself and of the digest it fills up with zeros. */
  lemma PadCode(c: seq<nat>) returns (hb: Digest)
    requires |c| <= HASH_BYTES && forall i :: 0 <= i < |c| ==> c[i] < |c| - i
    ensures Residues(c, |c|) == c && Residues(hb, |c|) == c
  {
    var padding: seq<nat> := seq(HASH_BYTES - |c|, _ => 0);
    hb := seq(HASH_BYTES, i requires 0 <= i < HASH_BYTES => if i < |c| then c[i] else 0);
    assert hb == c + padding;
    assert c == c + [];
    ResiduesOfLehmerCode(c, padding);
    ResiduesOfLehmerCode(c, []);
  }

  /** Onto: some 32-byte hash produces any given order of at most 32 oracles. */
  lemma EveryOrderIsReached<T>(l1: seq<T>, p: seq<T>) returns (hb: Digest)
    requires multiset(p) == multiset(l1) && |l1| <= HASH_BYTES
    ensures Shuffle(l1, hb) == p
  {
    var c := LehmerCode(l1, p);
    ShuffleOfLehmerCode(l1, p);
    hb := PadCode(c);
    ShuffleReadsOnlyResidues(l1, c, hb);
  }

  /** What is left of a list, in its order, without the elements picked so far. */
  function Unpicked<T(==)>(l1: seq<T>, picked: seq<T>): seq<T> {
    if l1 == [] then [] else
      (if l1[0] in picked then [] else [l1[0]]) + Unpicked(l1[1..], picked)
  }

  lemma {:induction false} UnpickedNothing<T>(l1: seq<T>)
    ensures Unpicked(l1, []) == l1
  {
    if l1 != [] {
      UnpickedNothing(l1[1..]);
    }
  }

  /** An element that is not there need not be picked. */
  lemma {:induction false} UnpickedOther<T>(l1: seq<T>, x: T, picked: seq<T>)
    requires x !in l1
    ensures Unpicked(l1, [x] + picked) == Unpicked(l1, picked)
  {
    if l1 != [] {
      assert l1[0] in l1 && forall y :: y in l1[1..] ==> y in l1;
      UnpickedOther(l1[1..], x, picked);
    }
  }

  lemma {:induction false} UnpickedRest<T>(l1: seq<T>, k: nat, picked: seq<T>)
    requires k < |l1| && Distinct(l1)
    ensures Unpicked(RemoveAt(l1, k), picked) == Unpicked(l1, [l1[k]] + picked)
  {
    var rest := l1[1..];
    assert forall i :: 0 <= i < |rest| ==> rest[i] == l1[i + 1];
    if k == 0 {
      assert RemoveAt(l1, 0) == rest;
      UnpickedOther(rest, l1[0], picked);
    } else {
      assert RemoveAt(l1, k) == [l1[0]] + RemoveAt(rest, k - 1);
      assert RemoveAt(l1, k)[1..] == RemoveAt(rest, k - 1);
      UnpickedRest(rest, k - 1, picked);
      assert rest[k - 1] == l1[k] && l1[0] != l1[k];
    }
  }

  /** The i-th oracle picked is the one at position `hb[i] % (n - i)` among those not yet picked. */
  lemma {:induction false} EachPickByItsByte<T>(l1: seq<T>, hb: seq<nat>, i: nat)
    requires i < |l1| <= |hb| && Distinct(l1)
    ensures var (p, left) := (Shuffle(l1, hb), Unpicked(l1, Shuffle(l1, hb)[..i]));
            var k := hb[i] % (|l1| - i);
            k < |left| && p[i] == left[k]
    decreases |l1|
  {
    var first, p := Residue(hb[0], |l1|), Shuffle(l1, hb);
    ResidueIsModulo(hb[0], |l1|);
    if i == 0 {
      UnpickedNothing(l1);
      assert p[..0] == [];
    } else {
      var rest := RemoveAt(l1, first);
      RemoveAtDistinct(l1, first);
      EachPickByItsByte(rest, hb[1..], i - 1);
      assert p == [l1[first]] + Shuffle(rest, hb[1..]);
      assert p[..i] == [l1[first]] + Shuffle(rest, hb[1..])[..i - 1];
      UnpickedRest(l1, first, Shuffle(rest, hb[1..])[..i - 1]);
    }
  }

  // ----- The stake draw

  function StakeUpTo(l2: seq<OracleInfo>, k: nat): nat
    requires k <= |l2|
  {
    if k == 0 then 0 else StakeUpTo(l2, k - 1) + l2[k - 1].stake
  }

  function TotalStake(l2: seq<OracleInfo>): nat {
    StakeUpTo(l2, |l2|)
  }

  lemma {:induction false} StakeUpToMonotone(l2: seq<OracleInfo>, i: nat, j: nat)
    requires i <= j <= |l2|
    ensures StakeUpTo(l2, i) <= StakeUpTo(l2, j)
    decreases j - i
  {
    if i < j {
      StakeUpToMonotone(l2, i, j - 1);
    }
  }

  lemma {:induction false} StakeUpToPrefix(l: seq<OracleInfo>, extra: OracleInfo, k: nat)
    requires k <= |l|
    ensures StakeUpTo(l + [extra], k) == StakeUpTo(l, k)
  {
    if k > 0 {
      StakeUpToPrefix(l, extra, k - 1);
    }
  }

  /** First bucket at or after `from` that is not below the draw `T * h / MAX_INT`. */
  function Search(l2: seq<OracleInfo>, h: nat, from: nat): (idx: nat)
    requires from <= |l2|
    decreases |l2| - from
  {
    if from < |l2| && TotalStake(l2) * h > StakeUpTo(l2, from + 1) * MAX_INT then Search(l2, h, from + 1) else from
  }

  function Winner(l2: seq<OracleInfo>, h: nat): nat {
    Search(l2, h, 0)
  }

  /** Position j wins exactly the draws in its own half-open stake interval (closed at 0 for j = 0). */
  ghost predicate InBucket(l2: seq<OracleInfo>, h: nat, j: nat)
    requires j < |l2|
  {
    && (j > 0 ==> TotalStake(l2) * h > StakeUpTo(l2, j) * MAX_INT)
    && TotalStake(l2) * h <= StakeUpTo(l2, j + 1) * MAX_INT
  }

  lemma {:induction false} SearchStops(l2: seq<OracleInfo>, h: nat, from: nat)
    requires from < |l2| && h <= MAX_INT
    requires from > 0 ==> TotalStake(l2) * h > StakeUpTo(l2, from) * MAX_INT
    ensures from <= Search(l2, h, from) < |l2|
    ensures InBucket(l2, h, Search(l2, h, from))
    decreases |l2| - from
  {
    DrawAtMostTotal(l2, h);
    if TotalStake(l2) * h > StakeUpTo(l2, from + 1) * MAX_INT {
      SearchStops(l2, h, from + 1);
    }
  }

  lemma {:induction false} DrawAtMostTotal(l2: seq<OracleInfo>, h: nat)
    requires h <= MAX_INT
    ensures TotalStake(l2) * h <= StakeUpTo(l2, |l2|) * MAX_INT
  {
    MulMonotone(TotalStake(l2), h, MAX_INT);
  }

  lemma MulMonotone(a: nat, b: nat, c: nat)
    requires b <= c
    ensures a * b <= a * c
  {
    assert a * c - a * b == a * (c - b);
  }

  /** The search index stays below the list length and is the one bucket the draw falls in. */
  lemma WinnerIsTheBucket(l2: seq<OracleInfo>, h: nat, j: nat)
    requires h <= MAX_INT && j < |l2|
    ensures Winner(l2, h) < |l2|
    ensures Winner(l2, h) == j <==> InBucket(l2, h, j)
  {
    SearchStops(l2, h, 0);
    var w := Winner(l2, h);
    if j < w {
      BucketsDisjoint(l2, h, j, w);
    } else if w < j {
      BucketsDisjoint(l2, h, w, j);
    }
  }

  lemma BucketsDisjoint(l2: seq<OracleInfo>, h: nat, i: nat, j: nat)
    requires i < j < |l2|
    ensures !(InBucket(l2, h, i) && InBucket(l2, h, j))
  {
    StakeUpToMonotone(l2, i + 1, j);
    MulMonotone(MAX_INT, StakeUpTo(l2, i + 1), StakeUpTo(l2, j));
  }

  /** All draws, out of 0..MAX_INT, that choose position j. */
  ghost function DrawsFor(l2: seq<OracleInfo>, j: nat): set<nat> {
    set h: nat | 0 <= h <= MAX_INT && Winner(l2, h) == j
  }

  ghost function Interval(lo: int, hi: int): (r: set<int>)
    requires lo <= hi
    ensures forall h :: h in r <==> lo <= h < hi
    ensures |r| == hi - lo
    decreases hi - lo
  {
    if lo < hi then Interval(lo, hi - 1) + {hi - 1} else {}
  }

  lemma FloorGalois(h: nat, b: nat, t: nat)
    requires t > 0
    ensures t * h <= b <==> h <= b / t
  {
    var q := b / t;
    assert b == t * q + b % t;
    if h <= q {
      MulMonotone(t, h, q);
    } else {
      MulMonotone(t, q + 1, h);
      assert t * (q + 1) == t * q + t;
    }
  }

  /** Last draw that still falls in the first k buckets. */
  ghost function LastDraw(l2: seq<OracleInfo>, k: nat): nat
    requires k <= |l2| && TotalStake(l2) > 0
  {
    StakeUpTo(l2, k) * MAX_INT / TotalStake(l2)
  }

  lemma LastDrawMonotone(l2: seq<OracleInfo>, i: nat, j: nat)
    requires i <= j <= |l2| && TotalStake(l2) > 0
    ensures LastDraw(l2, i) <= LastDraw(l2, j) <= MAX_INT
  {
    StakeUpToMonotone(l2, i, j);
    StakeUpToMonotone(l2, j, |l2|);
    var t := TotalStake(l2);
    DivMonotone(StakeUpTo(l2, i) * MAX_INT, StakeUpTo(l2, j) * MAX_INT, t) by {
      MulMonotone(MAX_INT, StakeUpTo(l2, i), StakeUpTo(l2, j));
    }
    FloorGalois(MAX_INT + 1, StakeUpTo(l2, j) * MAX_INT, t);
    MulMonotone(MAX_INT, StakeUpTo(l2, j), t);
    assert t * (MAX_INT + 1) > StakeUpTo(l2, j) * MAX_INT;
  }

  lemma DivMonotone(a: nat, b: nat, t: nat)
    requires t > 0 && a <= b
    ensures a / t <= b / t
  {
    FloorGalois(a / t, a, t);
    FloorGalois(a / t, b, t);
  }

  /** How many of the MAX_INT + 1 draws choose position j. */
  lemma DrawCount(l2: seq<OracleInfo>, j: nat)
    requires j < |l2| && TotalStake(l2) > 0
    ensures |DrawsFor(l2, j)| == LastDraw(l2, j + 1) - LastDraw(l2, j) + (if j == 0 then 1 else 0)
  {
    var lo := if j == 0 then 0 else LastDraw(l2, j) + 1;
    var hi := LastDraw(l2, j + 1) + 1;
    LastDrawMonotone(l2, j, j + 1);
    forall h: nat ensures h in DrawsFor(l2, j) <==> lo <= h < hi {
      if h <= MAX_INT {
        WonByInterval(l2, h, j);
      }
    }
    var draws: set<int> := DrawsFor(l2, j);
    assert draws == Interval(lo, hi);
    FirstBucketStartsAtZero(l2);
  }

  lemma FirstBucketStartsAtZero(l2: seq<OracleInfo>)
    requires TotalStake(l2) > 0
    ensures LastDraw(l2, 0) == 0
  {
    assert StakeUpTo(l2, 0) * MAX_INT == 0;
  }

  lemma WonByInterval(l2: seq<OracleInfo>, h: nat, j: nat)
    requires j < |l2| && TotalStake(l2) > 0 && h <= MAX_INT
    ensures Winner(l2, h) == j <==> (j == 0 || h > LastDraw(l2, j)) && h <= LastDraw(l2, j + 1)
  {
    WinnerIsTheBucket(l2, h, j);
    FloorGalois(h, StakeUpTo(l2, j + 1) * MAX_INT, TotalStake(l2));
    FloorGalois(h, StakeUpTo(l2, j) * MAX_INT, TotalStake(l2));
  }

  lemma FloorBracket(a: nat, t: nat)
    requires t > 0
    ensures a / t * t <= a < a / t * t + t
  {
    assert a == t * (a / t) + a % t;
  }

  lemma CountBracket(won: int, qa: int, qb: int, extra: int, t: int, a: int, b: int)
    requires won == qa - qb + extra && t > 0
    requires qa * t <= a < qa * t + t && qb * t <= b < qb * t + t
    requires extra == 0 || (extra == 1 && qb * t == b)
    ensures a - b - t < won * t <= a - b + t && (extra == 0 ==> won * t < a - b + t)
  {
    assert won * t == qa * t - qb * t + extra * t;
  }

  lemma OneBucketsWorth(l2: seq<OracleInfo>, j: nat)
    requires j < |l2|
    ensures StakeUpTo(l2, j + 1) * MAX_INT - StakeUpTo(l2, j) * MAX_INT == l2[j].stake * MAX_INT
  {
    assert StakeUpTo(l2, j + 1) == StakeUpTo(l2, j) + l2[j].stake;
  }

  /** Stake-proportional: the number of draws won is within one of stake * MAX_INT / total. */
  lemma StakeProportional(l2: seq<OracleInfo>, j: nat)
    requires j < |l2| && TotalStake(l2) > 0
    ensures var (won, fair, t) := (|DrawsFor(l2, j)|, l2[j].stake * MAX_INT, TotalStake(l2));
            fair - t < won * t <= fair + t && (j > 0 ==> won * t < fair + t)
  {
    DrawCount(l2, j);
    var t := TotalStake(l2);
    var a, b := StakeUpTo(l2, j + 1) * MAX_INT, StakeUpTo(l2, j) * MAX_INT;
    OneBucketsWorth(l2, j);
    FloorBracket(a, t);
    FloorBracket(b, t);
    if j == 0 {
      FirstBucketStartsAtZero(l2);
    }
    CountBracket(|DrawsFor(l2, j)|, a / t, b / t, if j == 0 then 1 else 0, t, a, b);
  }

  /** With no stake at all the draw is 0 and the first shuffled oracle is chosen. */
  lemma NoStakeChoosesFirst(l2: seq<OracleInfo>, h: nat)
    requires l2 != [] && TotalStake(l2) == 0
    ensures Winner(l2, h) == 0
  {
    assert TotalStake(l2) * h == 0;
  }

  // ----- The whole selection

  /** `int(hb.hex(), 16)`: the bytes as one big-endian number. */
  function BigEndian(hb: seq<Byte>): nat {
    if hb == [] then 0 else BigEndian(hb[..|hb| - 1]) * 256 + hb[|hb| - 1]
  }

  ghost function Pow256(n: nat): nat {
    if n == 0 then 1 else Pow256(n - 1) * 256
  }

  lemma {:induction false} BigEndianBound(hb: seq<Byte>)
    ensures BigEndian(hb) < Pow256(|hb|)
  {
    if hb != [] {
      BigEndianBound(hb[..|hb| - 1]);
    }
  }

  /** The first byte is the most significant one. */
  lemma {:induction false} FirstByteWeighsMost(hb: seq<Byte>)
    requires hb != []
    ensures BigEndian(hb) == hb[0] * Pow256(|hb| - 1) + BigEndian(hb[1..])
  {
    if |hb| > 1 {
      var init, last := hb[..|hb| - 1], hb[|hb| - 1];
      FirstByteWeighsMost(init);
      LastByte(hb[1..], init[1..], last);
      Scale256(hb[0], |hb| - 2);
    }
  }

  lemma {:induction false} LastByte(hb: seq<Byte>, init: seq<Byte>, last: Byte)
    requires hb == init + [last]
    ensures BigEndian(hb) == BigEndian(init) * 256 + last
  {
    assert hb[..|hb| - 1] == init;
  }

  lemma Scale256(b: nat, n: nat)
    ensures b * Pow256(n) * 256 == b * Pow256(n + 1)
  {
    assert b * Pow256(n) * 256 == b * (Pow256(n) * 256);
  }

  /** It is the number whose hexadecimal text is the digest's. */
  lemma {:induction false} DrawIsHexText(hb: seq<Byte>)
    ensures Encoding.FromHex(Encoding.BytesHex(hb)) == Some(BigEndian(hb))
  {
    if hb != [] {
      var init, last, s := hb[..|hb| - 1], hb[|hb| - 1], Encoding.BytesHex(hb);
      DrawIsHexText(init);
      Encoding.DigitReadsBack(last / 16);
      Encoding.DigitReadsBack(last % 16);
      var head := s[..|s| - 1];
      assert head[..|head| - 1] == Encoding.BytesHex(init);
      assert Encoding.FromHex(head) == Some(16 * BigEndian(init) + last / 16);
    }
  }

  lemma MaxIntIsLargestHash()
    ensures MAX_INT + 1 == Pow256(HASH_BYTES)
  {
    assert Pow256(4) == 0x1_0000_0000;
    assert Pow256(8) == Pow256(4) * 0x1_0000_0000;
    assert Pow256(12) == Pow256(8) * 0x1_0000_0000;
    assert Pow256(16) == Pow256(12) * 0x1_0000_0000;
    assert Pow256(20) == Pow256(16) * 0x1_0000_0000;
    assert Pow256(24) == Pow256(20) * 0x1_0000_0000;
    assert Pow256(28) == Pow256(24) * 0x1_0000_0000;
    assert Pow256(32) == Pow256(28) * 0x1_0000_0000;
  }

  /** `l[(start + i) % len(l)]` for each i. */
  function Rotate<T>(l: seq<T>, start: nat): (r: seq<T>)
    requires start < |l|
    ensures r == l[start..] + l[..start]
  {
    var r := seq(|l|, i requires 0 <= i < |l| => l[Wrap(start + i, |l|)]);
    var spliced := l[start..] + l[..start];
    assert forall i :: 0 <= i < |l| ==> r[i] == l[Wrap(start + i, |l|)];
    assert forall i :: 0 <= i < |l| && start + i < |l| ==> spliced[i] == l[start + i];
    assert forall i :: 0 <= i < |l| && start + i >= |l| ==> spliced[i] == l[start + i - |l|];
    r
  }

  function Wrap(i: nat, n: nat): (r: nat)
    requires i < 2 * n
    ensures r == i % n < n
    ensures r == if i < n then i else i - n
  {
    if i < n then SmallMod(i, n); i else
      WrapOnce(i, n);
      i - n
  }

  lemma WrapOnce(i: nat, n: nat)
    requires 0 < n <= i < 2 * n
    ensures i % n == i - n
  {
    SmallMod(i - n, n);
    assert i == n + (i - n);
    assert (n + (i - n)) % n == (i - n) % n;
  }

  /** What every node computes from the same digest and the same oracle list. */
  function Order(hb: Digest, oracles: seq<OracleInfo>): (r: Result<seq<OracleInfo>, SelectError>)
    ensures r.Err? <==> |oracles| > HASH_BYTES
    ensures r.Ok? ==> multiset(r.value) == multiset(oracles) && |r.value| == |oracles|
  {
    if oracles == [] then Ok([])
    else if |oracles| > HASH_BYTES then Err(TooManyOracles)
    else
      var l2 := Shuffle(oracles, hb);
      DrawInRange(hb);
      SearchStops(l2, BigEndian(hb), 0);
      ShufflePermutes(oracles, hb);
      var w := Winner(l2, BigEndian(hb));
      assert l2 == l2[..w] + l2[w..];
      Ok(Rotate(l2, w))
  }

  lemma {:induction false} DrawInRange(hb: Digest)
    ensures BigEndian(hb) <= MAX_INT
  {
    BigEndianBound(hb);
    MaxIntIsLargestHash();
  }

  /** The chosen oracle is the stake winner of the draw, the number that the digest's hexadecimal text says, and
      the fallbacks follow it round the shuffled list. */
  lemma OrderIsRotationFromWinner(hb: Digest, oracles: seq<OracleInfo>) returns (w: nat)
    requires 0 < |oracles| <= HASH_BYTES
    ensures Encoding.FromHex(Encoding.BytesHex(hb)).Some?
    ensures var (l2, draw) := (Shuffle(oracles, hb), Encoding.FromHex(Encoding.BytesHex(hb)).value);
            w < |l2| && InBucket(l2, draw, w) && Order(hb, oracles) == Ok(Rotate(l2, w))
  {
    DrawInRange(hb);
    DrawIsHexText(hb);
    var l2 := Shuffle(oracles, hb);
    SearchStops(l2, BigEndian(hb), 0);
    w := Winner(l2, BigEndian(hb));
  }

  lemma {:induction false} OrderFromBucket(hb: Digest, oracles: seq<OracleInfo>, w: nat)
    requires 0 < |oracles| <= HASH_BYTES && w < |oracles|
    requires InBucket(Shuffle(oracles, hb), BigEndian(hb), w)
    ensures Order(hb, oracles) == Ok(Rotate(Shuffle(oracles, hb), w))
  {
    DrawInRange(hb);
    WinnerIsTheBucket(Shuffle(oracles, hb), BigEndian(hb), w);
  }

  lemma {:induction false} ZerosAreZero(zeros: seq<Byte>)
    requires forall i :: 0 <= i < |zeros| ==> zeros[i] == 0
    ensures BigEndian(zeros) == 0
  {
    if zeros != [] {
      ZerosAreZero(zeros[..|zeros| - 1]);
    }
  }

  lemma {:induction false} LeadingByteDraw(hb: Digest)
    requires hb[0] == 0xFE && forall i :: 0 < i < HASH_BYTES ==> hb[i] == 0
    ensures BigEndian(hb) * 2 > MAX_INT
  {
    FirstByteWeighsMost(hb);
    ZerosAreZero(hb[1..]);
    MaxIntIsLargestHash();
    assert Pow256(HASH_BYTES) == Pow256(HASH_BYTES - 1) * 256;
  }

  lemma {:induction false} TwoShuffledInOrder(hb: Digest, a: OracleInfo, b: OracleInfo)
    requires hb[0] == 0xFE
    ensures Shuffle([a, b], hb) == [a, b]
  {
    ResidueIsModulo(hb[0], 2);
    assert RemoveAt([a, b], 0) == [b];
    assert Shuffle([b], hb[1..]) == [b] + Shuffle(RemoveAt([b], 0), hb[1..][1..]);
    assert [a] + [b] == [a, b];
  }

  lemma UpperHalfIsSecond(l2: seq<OracleInfo>, h: nat)
    requires |l2| == 2 && l2[0].stake == 1 && l2[1].stake == 1
    requires h <= MAX_INT < h * 2
    ensures InBucket(l2, h, 1)
  {
    assert StakeUpTo(l2, 1) == 1 && StakeUpTo(l2, 2) == 2;
  }

  lemma RotateTwo<T>(a: T, b: T)
    ensures Rotate([a, b], 1) == [b, a]
  {
    assert [a, b][1..] == [b] && [a, b][..1] == [a];
  }

  /** Concretely: of two oracles with equal stakes the second is chosen by a digest that starts with 0xFE and has
      zeros after it: the draw is in the upper half, although the last byte is the smallest. */
  lemma FirstByteDecides(hb: Digest, a: OracleInfo, b: OracleInfo)
    requires hb[0] == 0xFE && forall i :: 0 < i < HASH_BYTES ==> hb[i] == 0
    requires a.stake == 1 && b.stake == 1
    ensures Order(hb, [a, b]) == Ok([b, a])
  {
    var l2 := [a, b];
    LeadingByteDraw(hb);
    DrawInRange(hb);
    TwoShuffledInOrder(hb, a, b);
    UpperHalfIsSecond(l2, BigEndian(hb));
    OrderFromBucket(hb, l2, 1);
    RotateTwo(a, b);
  }

  lemma DrawComparison(total: nat, h: nat, bucket: nat)
    ensures (total as real) * (h as real) / (MAX_INT as real) > bucket as real <==> total * h > bucket * MAX_INT
  {
    var m, b := MAX_INT as real, bucket as real;
    var th := (total as real) * (h as real);
    assert th == (total * h) as real;
    assert b * m == (bucket * MAX_INT) as real;
    assert th / m * m == th;
    if th / m > b {
      assert th / m * m > b * m;
    } else {
      assert th / m * m <= b * m;
    }
  }

  /** After idx picks: l2 is picked, l1 is left, and the next bytes pick the rest. */
  ghost predicate Shuffling<T>(oracles: seq<T>, hb: seq<nat>, l1: seq<T>, l2: seq<T>, idx: nat) {
    && idx + |l1| == |oracles| <= |hb|
    && l2 + Shuffle(l1, hb[idx..]) == Shuffle(oracles, hb)
  }

  lemma {:induction false} ShuffleStep<T>(oracles: seq<T>, hb: seq<nat>, l1: seq<T>, l2: seq<T>, idx: nat, k: nat)
    requires Shuffling(oracles, hb, l1, l2, idx) && l1 != [] && k == Residue(hb[idx], |l1|)
    ensures Shuffling(oracles, hb, RemoveAt(l1, k), l2 + [l1[k]], idx + 1)
  {
    var bytes := hb[idx..];
    assert bytes[0] == hb[idx] && bytes[1..] == hb[idx + 1..];
    var rest := Shuffle(RemoveAt(l1, k), bytes[1..]);
    assert Shuffle(l1, bytes) == [l1[k]] + rest;
    assert l2 + ([l1[k]] + rest) == l2 + [l1[k]] + rest;
  }

  /** Each bucket is the stake up to its position. */
  ghost predicate AreBuckets(l2: seq<OracleInfo>, stakeBuckets: seq<nat>) {
    |stakeBuckets| == |l2| && forall k :: 0 <= k < |l2| ==> stakeBuckets[k] == StakeUpTo(l2, k + 1)
  }

  lemma {:induction false} AppendStake(l2: seq<OracleInfo>, item: OracleInfo, buckets: seq<nat>)
    requires AreBuckets(l2, buckets)
    ensures TotalStake(l2 + [item]) == TotalStake(l2) + item.stake
    ensures AreBuckets(l2 + [item], buckets + [TotalStake(l2) + item.stake])
  {
    forall k | 0 <= k <= |l2| ensures StakeUpTo(l2 + [item], k) == StakeUpTo(l2, k) {
      StakeUpToPrefix(l2, item, k);
    }
  }

  method Modulo(b: nat, n: nat) returns (r: nat)
    requires n > 0
    ensures r == Residue(b, n) < n
  {
    ResidueIsModulo(b, n);
    r := b % n;
  }

  /** First loop: pop by hash byte, accumulating the stake buckets. */
  method ShuffleIntoBuckets(hb: seq<Byte>, oracleInfoList: seq<OracleInfo>)
    returns (l2: seq<OracleInfo>, stakeBuckets: seq<nat>, totalStake: nat)
    requires |oracleInfoList| <= |hb|
    ensures l2 == Shuffle(oracleInfoList, hb) && totalStake == TotalStake(l2)
    ensures AreBuckets(l2, stakeBuckets)
  {
    var l1, lastRangeLimit, idx := oracleInfoList, 0, 0;
    l2, stakeBuckets, totalStake := [], [], 0;
    assert hb[0..] == hb && [] + Shuffle(l1, hb) == Shuffle(l1, hb);
    while |l1| > 0
      invariant Shuffling(oracleInfoList, hb, l1, l2, idx)
      invariant totalStake == lastRangeLimit == TotalStake(l2) && AreBuckets(l2, stakeBuckets)
    {
      var selIndex := Modulo(hb[idx], |l1|);
      var oracleItem := l1[selIndex];
      ShuffleStep(oracleInfoList, hb, l1, l2, idx, selIndex);
      AppendStake(l2, oracleItem, stakeBuckets);
      l1 := RemoveAt(l1, selIndex);
      totalStake := totalStake + oracleItem.stake;
      l2 := l2 + [oracleItem];
      lastRangeLimit := lastRangeLimit + oracleItem.stake;
      stakeBuckets := stakeBuckets + [lastRangeLimit];
      idx := idx + 1;
    }
    assert l2 + [] == l2;
  }

  /** Second loop: the first bucket that is not below the scaled draw. */
  method SearchBucket(l2: seq<OracleInfo>, stakeBuckets: seq<nat>, totalStake: nat, h: nat) returns (idx: nat)
    requires h <= MAX_INT && |l2| > 0
    requires totalStake == TotalStake(l2) && AreBuckets(l2, stakeBuckets)
    ensures idx < |l2| && InBucket(l2, h, idx)
  {
    var rndStake := (totalStake as real) * (h as real) / (MAX_INT as real);
    idx := 0;
    DrawComparison(totalStake, h, stakeBuckets[0]);
    while idx < |stakeBuckets| && rndStake > stakeBuckets[idx] as real
      invariant 0 <= idx <= |l2|
      invariant idx > 0 ==> TotalStake(l2) * h > StakeUpTo(l2, idx) * MAX_INT
      invariant idx < |l2| ==>
        (rndStake > stakeBuckets[idx] as real <==> TotalStake(l2) * h > StakeUpTo(l2, idx + 1) * MAX_INT)
    {
      idx := idx + 1;
      if idx < |stakeBuckets| {
        DrawComparison(totalStake, h, stakeBuckets[idx]);
      }
    }
    DrawAtMostTotal(l2, h);
  }

  method SelectNext(hb: Digest, oracleInfoList: seq<OracleInfo>) returns (r: Result<seq<OracleInfo>, SelectError>)
    ensures r == Order(hb, oracleInfoList)
  {
    if |oracleInfoList| == 0 {
      return Ok([]);
    }
    if |oracleInfoList| > HASH_BYTES {
      return Err(TooManyOracles);
    }
    var l2, stakeBuckets, totalStake := ShuffleIntoBuckets(hb, oracleInfoList);
    DrawInRange(hb);
    var h := BigEndian(hb);
    var idx := SearchBucket(l2, stakeBuckets, totalStake, h);
    OrderFromBucket(hb, oracleInfoList, idx);
    r := Ok(Rotate(l2, idx));
  }

  // ----- Addresses

  function Addresses(oracles: seq<OracleInfo>): (a: seq<string>)
    ensures |a| == |oracles|
    ensures forall i :: 0 <= i < |a| ==> a[i] == oracles[i].addr
  {
    seq(|oracles|, i requires 0 <= i < |oracles| => oracles[i].addr)
  }

  /** A permutation names the same addresses, each as often as before. */
  lemma PermutationKeepsAddresses(r: seq<OracleInfo>, oracles: seq<OracleInfo>)
    requires multiset(r) == multiset(oracles)
    ensures Elements(Addresses(r)) == Elements(Addresses(oracles))
    ensures Distinct(Addresses(oracles)) ==> Distinct(Addresses(r))
  {
    forall o ensures o in r <==> o in oracles {
      assert o in multiset(r) <==> o in multiset(oracles);
    }
    SameElementsSameAddresses(r, oracles);
    SameElementsSameAddresses(oracles, r);
    if Distinct(Addresses(oracles)) {
      forall i, j | 0 <= i < j < |r| ensures Addresses(r)[i] != Addresses(r)[j] {
        if r[i].addr == r[j].addr {
          SameAddressSameOracle(oracles, r[i], r[j]);
          RepeatedTwice(r, i, j);
          DistinctOnce(oracles, r[i]);
        }
      }
    }
  }

  lemma SameAddressSameOracle(oracles: seq<OracleInfo>, o: OracleInfo, p: OracleInfo)
    requires Distinct(Addresses(oracles)) && o in oracles && p in oracles && o.addr == p.addr
    ensures o == p
  {
    var a, b := IndexOf(oracles, o), IndexOf(oracles, p);
    assert Addresses(oracles)[a] == Addresses(oracles)[b];
  }

  lemma SameElementsSameAddresses(a: seq<OracleInfo>, b: seq<OracleInfo>)
    requires forall o :: o in a ==> o in b
    ensures Elements(Addresses(a)) <= Elements(Addresses(b))
  {
    forall x | x in Elements(Addresses(a)) ensures x in Elements(Addresses(b)) {
      var i :| 0 <= i < |a| && Addresses(a)[i] == x;
      var j := IndexOf(b, a[i]);
      assert Addresses(b)[j] == x;
    }
  }

  lemma RepeatedTwice<T>(s: seq<T>, i: nat, j: nat)
    requires i < j < |s| && s[i] == s[j]
    ensures multiset(s)[s[i]] >= 2
  {
    assert s == s[..i] + [s[i]] + s[i + 1..j] + [s[j]] + s[j + 1..];
  }

  lemma DistinctOnce(s: seq<OracleInfo>, x: OracleInfo)
    requires Distinct(Addresses(s))
    ensures multiset(s)[x] <= 1
  {
    if x in s {
      var k := IndexOf(s, x);
      RemoveAtMultiset(s, k);
      var rest := RemoveAt(s, k);
      forall m | 0 <= m < |rest| ensures rest[m] != x {
        var at := if m < k then m else m + 1;
        assert rest[m] == s[at] && Addresses(s)[at] != Addresses(s)[k];
      }
    }
  }
}
