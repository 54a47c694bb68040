/** The tournament of bracket.c: byes and play-ins bring the field to an even size, then `size / 4 + 1` rounds are
    fought on a queue and its front entrant is declared the winner. */
module Bracket {
  import opened Powers
  import opened Queues
  import opened Sequences

  // ----- What the loops compute, on values -----

  function EnterArena(f1: int, f2: int): int {
    if f1 >= f2 then f1 else f2
  }

  /** The winners of the fights s[0]-s[1], s[2]-s[3], ...; an odd last entrant does not fight. */
  function Winners(s: seq<int>): (w: seq<int>)
    ensures |w| == |s| / 2
  {
    if |s| < 2 then [] else [EnterArena(s[0], s[1])] + Winners(s[2..])
  }

  function Unpaired(s: seq<int>): seq<int> {
    if |s| % 2 == 0 then [] else [s[|s| - 1]]
  }

  /** One pass over the queue: an entrant left without an opponent ends up in front of the winners. */
  function Round(s: seq<int>): (r: seq<int>)
    ensures |r| == (|s| + 1) / 2
  {
    Unpaired(s) + Winners(s)
  }

  function Rounds(s: seq<int>, k: nat): (r: seq<int>)
    ensures s != [] ==> r != []
    decreases k
  {
    if k == 0 then s else Rounds(Round(s), k - 1)
  }

  function PlayIn(fs: seq<int>): seq<int>
    requires |fs| >= 2
  {
    fs[2..] + [EnterArena(fs[0], fs[1])]
  }

  /** The byes and the winners of the other entrants are an even number together. */
  lemma StageSizes(n: nat)
    requires n >= 3
    ensures n % 4 == 3 ==> ((n - 1) / 2) % 2 == 1
    ensures n % 4 == 2 ==> ((n - 2) / 2) % 2 == 0
    ensures n % 4 == 1 ==> ((n - 1) / 2) % 2 == 0
  {
    var q, r := n / 4, n % 4;
    assert n == 4 * q + r;
    assert r == 3 ==> (n - 1) / 2 == 2 * q + 1;
    assert r == 2 ==> (n - 2) / 2 == 2 * q;
    assert r == 1 ==> (n - 1) / 2 == 2 * q;
  }

  /** The queue handed to the round loop, by the size of the field modulo 4. */
  function Stage(fs: seq<int>): (s: seq<int>)
    requires |fs| >= 3
    ensures |s| >= 2 && |s| % 2 == 0
  {
    StageSizes(|fs|);
    match |fs| % 4
    case 0 => fs
    case 3 => fs[..1] + Winners(fs[1..])
    case 2 => fs[..2] + Winners(fs[2..])
    case _ => Winners(PlayIn(fs))
  }

  function PerfectBracketWinner(s: seq<int>): int
    requires s != []
  {
    Rounds(s, |s| / 4 + 1)[0]
  }

  function SetBracketWinner(fs: seq<int>): int
    requires fs != []
  {
    if |fs| == 1 then fs[0]
    else if |fs| == 2 then EnterArena(fs[0], fs[1])
    else PerfectBracketWinner(Stage(fs))
  }

  /** Fight k is between entrants 2k and 2k + 1. */
  ghost predicate PairedOff(s: seq<int>, w: seq<int>) {
    && |w| == |s| / 2
    && forall k {:trigger w[k]} :: 0 <= k < |w| ==> w[k] == EnterArena(s[2 * k], s[2 * k + 1])
  }

  lemma {:induction false} WinnersPairedOff(s: seq<int>)
    ensures PairedOff(s, Winners(s))
  {
    if |s| >= 2 {
      WinnersPairedOff(s[2..]);
      PairedOffCons(s, Winners(s[2..]));
    }
  }

  lemma PairedOffCons(s: seq<int>, w: seq<int>)
    requires |s| >= 2 && PairedOff(s[2..], w)
    ensures PairedOff(s, [EnterArena(s[0], s[1])] + w)
  {
    var v := [EnterArena(s[0], s[1])] + w;
    forall k | 0 <= k < |v| ensures v[k] == EnterArena(s[2 * k], s[2 * k + 1]) {
      if k > 0 {
        assert v[k] == w[k - 1];
        assert s[2..][2 * (k - 1)] == s[2 * k] && s[2..][2 * (k - 1) + 1] == s[2 * k + 1];
      }
    }
  }

  lemma WinnersStep(before: seq<int>, s: seq<int>)
    requires |s| >= 2
    ensures before + Winners(s) == before + [EnterArena(s[0], s[1])] + Winners(s[2..])
  {
  }

  lemma UnpairedStep(s: seq<int>)
    requires |s| >= 2
    ensures Unpaired(s[2..]) == Unpaired(s)
  {
  }

  /** A queue `rest + w` after its two front entrants are gone and x has joined. */
  lemma QueueStep(rest: seq<int>, w: seq<int>, x: int)
    requires |rest| >= 2
    ensures (rest + w)[0] == rest[0] && (rest + w)[1] == rest[1]
    ensures (rest + w)[2..] + [x] == rest[2..] + (w + [x])
  {
  }

  lemma LastStep(rest: seq<int>, w: seq<int>)
    requires |rest| < 2
    ensures Unpaired(rest) + (w + Winners(rest)) == rest + w
  {
  }

  // ----- The loops of the source, over the linked queue -----

  /** Two entrants leave the front of `fights`; the stronger is returned. */
  method NextFight(fights: Queue<int>) returns (winner: int)
    requires fights.Valid() && |fights.contents| >= 2
    modifies fights
    ensures fights.Valid() && fights.Repr == old(fights.Repr)
    ensures fights.contents == old(fights.contents)[2..]
    ensures winner == EnterArena(old(fights.contents)[0], old(fights.contents)[1])
  {
    var f1 := fights.Dequeue();
    var f2 := fights.Dequeue();
    winner := EnterArena(f1.value, f2.value);
  }

  /** One round of the outer loop of PerfectBracket. */
  method FightRound(queue: Queue<int>)
    requires queue.Valid() && queue.contents != []
    modifies queue.Repr
    ensures queue.Valid() && queue.contents == Round(old(queue.contents))
    ensures fresh(queue.Repr - old(queue.Repr))
  {
    hide Queue<int>.Valid, Winners, Unpaired, EnterArena;
    var size := queue.size;
    ghost var rest, w, s := queue.contents, [], queue.contents;
    assert Round(s) == Unpaired(rest) + (w + Winners(rest));
    for j := 0 to size / 2
      invariant queue.Valid() && fresh(queue.Repr - old(queue.Repr))
      invariant queue.contents == rest + w && |rest| == size - 2 * j
      invariant Round(s) == Unpaired(rest) + (w + Winners(rest))
    {
      QueueStep(rest, w, EnterArena(rest[0], rest[1]));
      WinnersStep(w, rest);
      UnpairedStep(rest);
      var winner := NextFight(queue);
      queue.Enqueue(winner, true);
      rest, w := rest[2..], w + [winner];
    }
    LastStep(rest, w);
  }

  lemma RoundsStep(s: seq<int>, k: nat)
    requires k > 0
    ensures Rounds(s, k) == Rounds(Round(s), k - 1)
  {
    hide Round;
  }

  method PerfectBracket(queue: Queue<int>) returns (winner: int)
    requires queue.Valid() && queue.contents != []
    modifies queue.Repr
    ensures queue.Valid() && queue.contents == []
    ensures winner == PerfectBracketWinner(old(queue.contents))
  {
    hide Queue<int>.Valid, Round;
    var rounds := queue.size / 4 + 1;
    ghost var start := queue.contents;
    for i := 0 to rounds
      invariant queue.Valid() && queue.contents != []
      invariant fresh(queue.Repr - old(queue.Repr))
      invariant Rounds(queue.contents, rounds - i) == Rounds(start, rounds)
    {
      RoundsStep(queue.contents, rounds - i);
      FightRound(queue);
    }
    assert Rounds(queue.contents, 0) == queue.contents;
    var front := queue.Peek();
    winner := front.value;
    var _ := queue.DestroyItems();
  }

  /** The pair-off loop that the three uneven branches share. */
  method PairOff(fights: Queue<int>, winners: Queue<int>)
    requires fights.Valid() && winners.Valid()
    requires fights.Repr !! winners.Repr
    requires |fights.contents| % 2 == 0
    modifies fights, winners.Repr
    ensures fights.Valid() && fights.contents == []
    ensures winners.Valid() && winners.contents == old(winners.contents) + Winners(old(fights.contents))
    ensures fresh(winners.Repr - old(winners.Repr))
  {
    hide Queue<int>.Valid, Winners, EnterArena;
    var size := fights.size;
    ghost var expected := winners.contents + Winners(fights.contents);
    for iter := 0 to size / 2
      invariant fights.Valid() && fights.Repr == old(fights.Repr)
      invariant winners.Valid() && fresh(winners.Repr - old(winners.Repr)) && fights.Repr !! winners.Repr
      invariant |fights.contents| == size - 2 * iter
      invariant winners.contents + Winners(fights.contents) == expected
    {
      ghost var byes, c := winners.contents, fights.contents;
      var winner := NextFight(fights);
      winners.Enqueue(winner, true);
      WinnersStep(byes, c);
    }
  }

  lemma StageIsByes(fs: seq<int>, byes: nat)
    requires |fs| >= 3 && (if byes == 1 then |fs| % 4 == 3 else byes == 2 && |fs| % 4 == 2)
    ensures Stage(fs) == fs[..byes] + Winners(fs[byes..]) && |fs[byes..]| % 2 == 0
  {
    hide Winners;
  }

  /** `size % 4 == 3`: the front entrant has a bye. */
  method OneBye(fights: Queue<int>, winners: Queue<int>)
    requires fights.Valid() && winners.Valid() && fights.Repr !! winners.Repr
    requires |fights.contents| % 4 == 3 && winners.contents == []
    modifies fights, winners.Repr
    ensures fights.Valid() && winners.Valid() && fresh(winners.Repr - old(winners.Repr))
    ensures winners.contents == Stage(old(fights.contents))
  {
    hide Queue<int>.Valid, Winners, EnterArena, Stage;
    StageIsByes(fights.contents, 1);
    var bye := fights.Dequeue();
    winners.Enqueue(bye.value, true);
    assert winners.contents == old(fights.contents)[..1];
    PairOff(fights, winners);
  }

  /** `size % 4 == 2`: the two front entrants have a bye. */
  method TwoByes(fights: Queue<int>, winners: Queue<int>)
    requires fights.Valid() && winners.Valid() && fights.Repr !! winners.Repr
    requires |fights.contents| % 4 == 2 && |fights.contents| > 2 && winners.contents == []
    modifies fights, winners.Repr
    ensures fights.Valid() && winners.Valid() && fresh(winners.Repr - old(winners.Repr))
    ensures winners.contents == Stage(old(fights.contents))
  {
    hide Queue<int>.Valid, Winners, EnterArena, Stage;
    StageIsByes(fights.contents, 2);
    var bye1 := fights.Dequeue();
    var bye2 := fights.Dequeue();
    winners.Enqueue(bye1.value, true);
    winners.Enqueue(bye2.value, true);
    assert winners.contents == old(fights.contents)[..2] && fights.contents == old(fights.contents)[2..];
    PairOff(fights, winners);
  }

  lemma StageIsPlayIn(fs: seq<int>)
    requires |fs| > 1 && |fs| % 4 == 1
    ensures fs[2..] + [EnterArena(fs[0], fs[1])] == PlayIn(fs)
    ensures Stage(fs) == [] + Winners(PlayIn(fs))
    ensures |PlayIn(fs)| % 2 == 0
  {
    hide Winners, EnterArena;
  }

  /** `size % 4 == 1`: the two front entrants fight for the last place. */
  method OnePlayIn(fights: Queue<int>, winners: Queue<int>)
    requires fights.Valid() && winners.Valid() && fights.Repr !! winners.Repr
    requires |fights.contents| % 4 == 1 && |fights.contents| > 1 && winners.contents == []
    modifies fights.Repr, winners.Repr
    ensures fights.Valid() && winners.Valid() && fresh(winners.Repr - old(winners.Repr))
    ensures winners.contents == Stage(old(fights.contents))
  {
    hide Queue<int>.Valid, Winners, EnterArena, Stage, PlayIn;
    ghost var fs := fights.contents;
    var playIn := NextFight(fights);
    fights.Enqueue(playIn, true);
    assert fights.Repr !! winners.Repr;
    StageIsPlayIn(fs);
    PairOff(fights, winners);
  }

  method SetBracket(fights: Queue<int>) returns (winner: int)
    requires fights.Valid() && fights.contents != []
    modifies fights.Repr
    ensures winner == SetBracketWinner(old(fights.contents))
  {
    hide Queue<int>.Valid, Winners, Rounds;
    if fights.size == 1 {
      var only := fights.Peek();
      return only.value;
    }
    if fights.size == 2 {
      winner := NextFight(fights);
      return;
    }
    if fights.size % 4 == 0 {
      winner := PerfectBracket(fights);
      return;
    }
    var winners := new Queue<int>();
    if fights.size % 4 == 3 {
      OneBye(fights, winners);
    } else if fights.size % 4 == 2 {
      TwoByes(fights, winners);
    } else {
      OnePlayIn(fights, winners);
    }
    var _ := fights.DestroyItems();
    winner := PerfectBracket(winners);
  }

  // ----- When is the declared winner the strongest entrant? -----

  ghost predicate IsStrongest(m: int, s: seq<int>) {
    m in s && forall i :: 0 <= i < |s| ==> s[i] <= m
  }

  lemma {:induction false} StrongestExists(s: seq<int>) returns (m: int)
    requires s != []
    ensures IsStrongest(m, s)
  {
    m := s[0];
    for i := 1 to |s|
      invariant m in s && forall j :: 0 <= j < i ==> s[j] <= m
    {
      m := EnterArena(m, s[i]);
    }
  }

  /** Fighting off the pairs of an even field does not eliminate the strongest. */
  lemma StrongestOfPairedOff(m: int, s: seq<int>, rest: seq<int>, w: seq<int>)
    requires |s| % 2 == 0 && PairedOff(s, w) && IsStrongest(m, rest + s)
    ensures IsStrongest(m, rest + w)
  {
    forall i | 0 <= i < |rest + w| ensures (rest + w)[i] <= m {
      if i >= |rest| {
        var k := i - |rest|;
        assert w[k] == EnterArena((rest + s)[|rest| + 2 * k], (rest + s)[|rest| + 2 * k + 1]);
      } else {
        assert (rest + w)[i] == (rest + s)[i];
      }
    }
    var i :| 0 <= i < |rest + s| && (rest + s)[i] == m;
    if i < |rest| {
      assert (rest + w)[i] == m;
    } else {
      var k := (i - |rest|) / 2;
      assert s[2 * k] == (rest + s)[|rest| + 2 * k];
      assert s[2 * k + 1] == (rest + s)[|rest| + 2 * k + 1];
      assert (rest + w)[|rest| + k] == w[k] == m;
    }
  }

  lemma StrongestOfSwap(m: int, a: seq<int>, b: seq<int>)
    requires IsStrongest(m, a + b)
    ensures IsStrongest(m, b + a)
  {
    assert m in a || m in b;
    forall i | 0 <= i < |b + a| ensures (b + a)[i] <= m {
      assert (b + a)[i] == (a + b)[if i < |b| then |a| + i else i - |b|];
    }
  }

  lemma StrongestOfRound(m: int, s: seq<int>)
    requires IsStrongest(m, s)
    ensures IsStrongest(m, Round(s))
  {
    var even := s[..|s| - |s| % 2];
    assert s == even + Unpaired(s);
    StrongestOfSwap(m, even, Unpaired(s));
    WinnersPairedOff(s);
    PairedOffPrefix(s, Winners(s));
    StrongestOfPairedOff(m, even, Unpaired(s), Winners(s));
  }

  lemma PairedOffPrefix(s: seq<int>, w: seq<int>)
    requires PairedOff(s, w)
    ensures PairedOff(s[..|s| - |s| % 2], w)
  {
  }

  /** k rounds keep the strongest, and leave a single entrant exactly when the field was at most 2^k. */
  lemma {:induction false} RoundsCorrect(m: int, s: seq<int>, k: nat)
    requires IsStrongest(m, s)
    ensures IsStrongest(m, Rounds(s, k))
    ensures |Rounds(s, k)| == 1 <==> |s| <= Pow2(k)
    decreases k
  {
    if k > 0 {
      StrongestOfRound(m, s);
      RoundsCorrect(m, Round(s), k - 1);
    }
  }

  lemma {:induction false} RoundCountSuffices(q: nat)
    requires q >= 3
    ensures Pow2(q + 1) >= 4 * q + 3
  {
    if q == 3 {
      assert Pow2(4) == 2 * Pow2(3) == 4 * Pow2(2) == 8 * Pow2(1) == 16 * Pow2(0);
    } else {
      RoundCountSuffices(q - 1);
    }
  }

  /** `size / 4 + 1` rounds finish an even field unless it has 6 or 10 entrants. */
  lemma EnoughRounds(m: nat)
    requires m >= 2 && m % 2 == 0
    ensures m <= Pow2(m / 4 + 1) <==> m != 6 && m != 10
  {
    if m / 4 >= 3 {
      RoundCountSuffices(m / 4);
    } else {
      assert Pow2(1) == 2 * Pow2(0) && Pow2(2) == 2 * Pow2(1) && Pow2(3) == 2 * Pow2(2);
    }
  }

  lemma StageKeepsStrongest(m: int, fs: seq<int>)
    requires |fs| >= 3 && IsStrongest(m, fs)
    ensures IsStrongest(m, Stage(fs))
  {
    hide *;
    if |fs| % 4 == 0 {
      StageIsField(fs);
    } else if |fs| % 4 == 3 {
      StageIsByes(fs, 1);
      ByesKeepStrongest(m, fs, 1);
    } else if |fs| % 4 == 2 {
      StageIsByes(fs, 2);
      ByesKeepStrongest(m, fs, 2);
    } else {
      StageIsPlayIn(fs);
      PlayInKeepsStrongest(m, fs);
      assert PlayIn(fs)[..0] == [] && PlayIn(fs)[0..] == PlayIn(fs);
      ByesKeepStrongest(m, PlayIn(fs), 0);
    }
  }

  lemma StageIsField(fs: seq<int>)
    requires |fs| >= 3 && |fs| % 4 == 0
    ensures Stage(fs) == fs
  {
    hide Winners, PlayIn;
  }

  lemma ByesKeepStrongest(m: int, fs: seq<int>, byes: nat)
    requires byes <= |fs| && (|fs| - byes) % 2 == 0 && IsStrongest(m, fs)
    ensures IsStrongest(m, fs[..byes] + Winners(fs[byes..]))
  {
    hide *;
    assert fs == fs[..byes] + fs[byes..];
    WinnersPairedOff(fs[byes..]);
    StrongestOfPairedOff(m, fs[byes..], fs[..byes], Winners(fs[byes..]));
  }

  lemma PlayInKeepsStrongest(m: int, fs: seq<int>)
    requires |fs| >= 2 && IsStrongest(m, fs)
    ensures IsStrongest(m, PlayIn(fs))
  {
    assert fs == fs[..2] + fs[2..];
    StrongestOfSwap(m, fs[..2], fs[2..]);
    StrongestOfPairedOff(m, fs[..2], fs[2..], [EnterArena(fs[0], fs[1])]);
  }

  /** Field sizes whose second stage has 6 or 10 entrants: one round too few is fought. */
  const SHORT_SIZES: set<nat> := {10, 11, 13, 18, 19, 21}

  /** The entrants that can still be declared winner: everybody, or for a short size the part of the field whose
      survivor stands in front of the other finalist when the rounds run out. */
  function Contenders(fs: seq<int>): (c: seq<int>)
    requires fs != []
    ensures c != []
  {
    match |fs|
    case 10 => fs[6..]
    case 11 => fs[7..]
    case 13 => fs[10..] + fs[..2]
    case 18 => fs[6..14]
    case 19 => fs[7..15]
    case 21 => fs[10..18]
    case _ => fs
  }

  lemma SixLeaveTwo(s: seq<int>)
    requires |s| == 6
    ensures Rounds(s, 2)[0] == EnterArena(s[4], s[5])
  {
    WinnersPairedOff(s);
    var t := Round(s);
    WinnersPairedOff(t);
    assert Rounds(s, 2) == Rounds(t, 1) == Rounds(Round(t), 0);
  }

  lemma TenLeaveTwo(s: seq<int>)
    requires |s| == 10
    ensures Rounds(s, 3)[0] == EnterArena(EnterArena(s[4], s[5]), EnterArena(s[6], s[7]))
  {
    WinnersPairedOff(s);
    var t := Round(s);
    WinnersPairedOff(t);
    var u := Round(t);
    WinnersPairedOff(u);
    assert Rounds(s, 3) == Rounds(t, 2) == Rounds(u, 1) == Rounds(Round(u), 0);
  }

  lemma AfterByes(fs: seq<int>, byes: nat, w: seq<int>)
    requires byes <= |fs| && PairedOff(fs[byes..], w)
    ensures forall k {:trigger w[k]} :: 0 <= k < |w| ==> w[k] == EnterArena(fs[byes + 2 * k], fs[byes + 2 * k + 1])
  {
    forall k | 0 <= k < |w| ensures w[k] == EnterArena(fs[byes + 2 * k], fs[byes + 2 * k + 1]) {
      assert fs[byes..][2 * k] == fs[byes + 2 * k] && fs[byes..][2 * k + 1] == fs[byes + 2 * k + 1];
    }
  }

  lemma AfterPlayIn(fs: seq<int>, w: seq<int>)
    requires |fs| >= 2 && PairedOff(PlayIn(fs), w)
    ensures forall k {:trigger w[k]} :: 0 <= k < |w| && 2 * k + 3 < |fs| ==>
      w[k] == EnterArena(fs[2 * k + 2], fs[2 * k + 3])
    ensures |fs| % 2 == 1 ==> w[|w| - 1] == EnterArena(fs[|fs| - 1], EnterArena(fs[0], fs[1]))
  {
    forall k | 0 <= k < |w| && 2 * k + 3 < |fs| ensures w[k] == EnterArena(fs[2 * k + 2], fs[2 * k + 3]) {
      assert PlayIn(fs)[2 * k] == fs[2 * k + 2] && PlayIn(fs)[2 * k + 1] == fs[2 * k + 3];
    }
  }

  /** The front finalist of a second stage m of 6 or 10 entrants. */
  function FrontFinalist(m: seq<int>): int
    requires |m| == 6 || |m| == 10
  {
    if |m| == 6 then EnterArena(m[4], m[5]) else EnterArena(EnterArena(m[4], m[5]), EnterArena(m[6], m[7]))
  }

  lemma StrongestOfFour(c: seq<int>)
    requires |c| == 4
    ensures IsStrongest(EnterArena(EnterArena(c[0], c[1]), EnterArena(c[2], c[3])), c)
  {
    assert c == [c[0], c[1], c[2], c[3]];
  }

  lemma StrongestOfEight(a: seq<int>, b: seq<int>, m: int, n: int)
    requires IsStrongest(m, a) && IsStrongest(n, b)
    ensures IsStrongest(EnterArena(m, n), a + b)
  {
  }

  lemma FrontFinalistAfterByes(fs: seq<int>, byes: nat, w: seq<int>)
    requires byes <= 2 && |w| == (if |fs| <= 11 then 6 else 10) - byes && |fs| == 2 * |w| + byes
    requires PairedOff(fs[byes..], w)
    ensures |w| + byes == 6 ==> IsStrongest(FrontFinalist(fs[..byes] + w), fs[8 - byes..12 - byes])
    ensures |w| + byes == 10 ==> IsStrongest(FrontFinalist(fs[..byes] + w), fs[8 - byes..16 - byes])
  {
    AfterByes(fs, byes, w);
    var m := fs[..byes] + w;
    var c := fs[8 - byes..12 - byes];
    if |m| == 6 {
      assert m[4] == w[4 - byes] == EnterArena(c[0], c[1]) && m[5] == w[5 - byes] == EnterArena(c[2], c[3]);
      StrongestOfFour(c);
    } else {
      var d := fs[12 - byes..16 - byes];
      assert m[4] == w[4 - byes] == EnterArena(c[0], c[1]) && m[5] == w[5 - byes] == EnterArena(c[2], c[3]);
      assert m[6] == w[6 - byes] == EnterArena(d[0], d[1]) && m[7] == w[7 - byes] == EnterArena(d[2], d[3]);
      StrongestOfFour(c);
      StrongestOfFour(d);
      assert fs[8 - byes..16 - byes] == c + d;
      StrongestOfEight(c, d, EnterArena(m[4], m[5]), EnterArena(m[6], m[7]));
    }
  }

  lemma FrontFinalistAfterPlayIn(fs: seq<int>, w: seq<int>)
    requires |fs| in {13, 21} && PairedOff(PlayIn(fs), w)
    ensures IsStrongest(FrontFinalist(w), if |fs| == 13 then fs[10..] + fs[..2] else fs[10..18])
  {
    AfterPlayIn(fs, w);
    if |fs| == 13 {
      assert fs[10..] + fs[..2] == [fs[10], fs[11], fs[12], fs[0], fs[1]];
    } else {
      assert fs[10..18] == [fs[10], fs[11], fs[12], fs[13], fs[14], fs[15], fs[16], fs[17]];
    }
  }

  lemma FrontFinalistWins(m: seq<int>)
    requires |m| == 6 || |m| == 10
    ensures PerfectBracketWinner(m) == FrontFinalist(m)
  {
    if |m| == 6 {
      SixLeaveTwo(m);
    } else {
      TenLeaveTwo(m);
    }
  }

  /** How many are left when the rounds of PerfectBracket are over. */
  function Finalists(s: seq<int>): nat {
    |Rounds(s, |s| / 4 + 1)|
  }

  lemma TwoFinalists(s: seq<int>)
    requires |s| == 6 || |s| == 10
    ensures Finalists(s) == 2
  {
    var t := Round(s);
    var u := Round(t);
    hide Round;
    if |s| == 6 {
      assert Rounds(s, 2) == Rounds(t, 1) == Rounds(u, 0);
    } else {
      assert Rounds(s, 3) == Rounds(t, 2) == Rounds(u, 1) == Rounds(Round(u), 0);
    }
  }

  /** The second stage of a short size has 6 or 10 entrants, and that of no other size. */
  lemma ShortStages(fs: seq<int>)
    requires |fs| >= 3
    ensures |Stage(fs)| in {6, 10} <==> |fs| in SHORT_SIZES
  {
    hide Winners, EnterArena;
    assert |fs| == 4 * (|fs| / 4) + |fs| % 4;
  }

  /** The rounds leave one finalist, or two exactly for a short size. */
  lemma FinalistsIff(fs: seq<int>)
    requires |fs| >= 3
    ensures Finalists(Stage(fs)) == if |fs| in SHORT_SIZES then 2 else 1
  {
    hide Stage, Rounds, Pow2, IsStrongest;
    ShortStages(fs);
    var stage := Stage(fs);
    if |stage| in {6, 10} {
      TwoFinalists(stage);
    } else {
      var m := StrongestExists(stage);
      EnoughRounds(|stage|);
      RoundsCorrect(m, stage, |stage| / 4 + 1);
    }
  }

  /** With two finalists the front one is the strongest of its part of the field. */
  lemma ShortSizeWinner(fs: seq<int>)
    requires |fs| in SHORT_SIZES
    ensures Finalists(Stage(fs)) == 2
    ensures IsStrongest(SetBracketWinner(fs), Contenders(fs))
  {
    assert |fs| >= 3;
    hide *;
    FinalistsIff(fs);
    FrontFinalistStrongest(fs);
  }

  lemma FrontFinalistStrongest(fs: seq<int>)
    requires |fs| in SHORT_SIZES
    ensures IsStrongest(SetBracketWinner(fs), Contenders(fs))
  {
    hide Queue<int>.Valid, Winners, Rounds, PerfectBracketWinner, FrontFinalist;
    if |fs| % 4 == 1 {
      WinnersPairedOff(PlayIn(fs));
      FrontFinalistAfterPlayIn(fs, Stage(fs));
    } else {
      var byes := 2 - |fs| % 2;
      WinnersPairedOff(fs[byes..]);
      FrontFinalistAfterByes(fs, byes, Winners(fs[byes..]));
      StageIsByes(fs, byes);
      ContendersAfterByes(fs, byes);
    }
    FrontFinalistWins(Stage(fs));
  }

  lemma ContendersAfterByes(fs: seq<int>, byes: nat)
    requires |fs| in {10, 11, 18, 19} && byes == 2 - |fs| % 2
    ensures |fs| <= 11 ==> Contenders(fs) == fs[8 - byes..12 - byes]
    ensures |fs| > 11 ==> Contenders(fs) == fs[8 - byes..16 - byes]
  {
    assert |fs| == 10 ==> byes == 2 && fs[6..] == fs[6..10];
    assert |fs| == 11 ==> byes == 1 && fs[7..] == fs[7..11];
  }

  /** For every line-up the bracket declares the strongest contender. */
  lemma SetBracketDeclaresStrongestContender(fs: seq<int>)
    requires fs != []
    ensures IsStrongest(SetBracketWinner(fs), Contenders(fs))
  {
    hide Queue<int>.Valid, Winners, Rounds, Pow2;
    if |fs| in SHORT_SIZES {
      ShortSizeWinner(fs);
    } else if |fs| >= 3 {
      var m := StrongestExists(fs);
      var stage := Stage(fs);
      StageKeepsStrongest(m, fs);
      EnoughRounds(|stage|);
      RoundsCorrect(m, stage, |stage| / 4 + 1);
    }
  }

  /** The declared winner is the strongest entrant exactly when the strongest is among the contenders. */
  lemma SetBracketCorrectIff(fs: seq<int>, m: int)
    requires IsStrongest(m, fs)
    ensures IsStrongest(SetBracketWinner(fs), fs) <==> m in Contenders(fs)
  {
    hide SetBracketWinner, Contenders;
    SetBracketDeclaresStrongestContender(fs);
    ContenderIsEntrant(fs, SetBracketWinner(fs));
  }

  lemma ContenderIsEntrant(fs: seq<int>, x: int)
    requires fs != [] && x in Contenders(fs)
    ensures x in fs
  {
  }

  ghost predicate AlwaysCorrect(n: nat)
    requires n >= 1
  {
    forall fs: seq<int> :: |fs| == n ==> IsStrongest(SetBracketWinner(fs), fs)
  }

  /** The sizes for which no line-up defeats the bracket: all but the six short ones. */
  lemma CorrectSizes(n: nat)
    requires n >= 1
    ensures AlwaysCorrect(n) <==> n !in SHORT_SIZES
  {
    hide SetBracketWinner;
    if n in SHORT_SIZES {
      // The strongest entrant sits outside the contenders.
      var fs := [0, 0, 0, 0, 0, 1] + Repeat(0, n - 6);
      SetBracketDeclaresStrongestContender(fs);
      assert fs[5] == 1 && SetBracketWinner(fs) == 0;
    } else {
      forall fs: seq<int> | |fs| == n ensures IsStrongest(SetBracketWinner(fs), fs) {
        SetBracketDeclaresStrongestContender(fs);
      }
    }
  }
}
