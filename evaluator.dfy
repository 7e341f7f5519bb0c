/**
 Scoring a guess against the target word.

 `Evaluate` says which verdict every tile gets, in terms of letter counts;
 `EvaluateGuess` is the two-pass algorithm of the game (positional matches
 first, then each remaining guess letter takes the first unused equal target
 letter) and is proved to compute exactly `Evaluate`. The lemmas below state
 what the verdicts mean: positional matches, no over-counting of repeated
 letters, and the left-to-right tie-break.
 */
module Evaluator {
  import opened Tiles

  /** Both words have the board's length. */
  predicate Words(guess: string, target: string)
  {
    |guess| == WORD_LENGTH && |target| == WORD_LENGTH
  }

  function Min(a: nat, b: nat): nat
  {
    if a <= b then a else b
  }

  // ----- Counting letters over the first n positions -----

  /** Positions below n where guess and target both carry c. */
  function Hits(guess: string, target: string, c: char, n: nat): nat
    requires n <= |guess| && n <= |target|
  {
    if n == 0 then 0
    else Hits(guess, target, c, n - 1) + (if guess[n - 1] == c && target[n - 1] == c then 1 else 0)
  }

  /** Positions below n where the guess carries c and the target another letter. */
  function GuessMisses(guess: string, target: string, c: char, n: nat): nat
    requires n <= |guess| && n <= |target|
  {
    if n == 0 then 0
    else GuessMisses(guess, target, c, n - 1) + (if guess[n - 1] == c && guess[n - 1] != target[n - 1] then 1 else 0)
  }

  /** Positions below n where the target carries c and the guess another letter. */
  function TargetMisses(guess: string, target: string, c: char, n: nat): nat
    requires n <= |guess| && n <= |target|
  {
    if n == 0 then 0
    else TargetMisses(guess, target, c, n - 1) + (if target[n - 1] == c && guess[n - 1] != target[n - 1] then 1 else 0)
  }

  // ----- What the verdicts are -----

  /**
   The verdict for guess position i. A positional match is Correct. Otherwise
   the letter is Present when fewer earlier unmatched guess positions carry it
   than there are unmatched target positions carrying it, and Absent once
   those earlier positions have taken them all.
   */
  function Verdict(guess: string, target: string, i: nat): TileState
    requires Words(guess, target) && i < WORD_LENGTH
  {
    if guess[i] == target[i] then Correct
    else if GuessMisses(guess, target, guess[i], i) < TargetMisses(guess, target, guess[i], WORD_LENGTH) then Present
    else Absent
  }

  /** The scored row for a guess: tile i shows guess[i] and its verdict, never `Empty`. */
  function Evaluate(guess: string, target: string): (row: seq<Tile>)
    requires Words(guess, target)
    ensures |row| == WORD_LENGTH && WellFormedRow(row)
    ensures forall i :: 0 <= i < WORD_LENGTH ==> row[i].letter == [guess[i]] && row[i].state != Empty
    ensures forall i :: 0 <= i < WORD_LENGTH ==> (row[i].state == Correct <==> guess[i] == target[i])
  {
    seq(WORD_LENGTH, i requires 0 <= i < WORD_LENGTH => Tile([guess[i]], Verdict(guess, target, i)))
  }

  /**
   Whether target position j has been used up once the second pass has handled
   the guess positions below k: a positional match is used from the start, and
   the unmatched target positions carrying a letter are used left to right, one
   for each unmatched guess position below k carrying that letter.
   */
  predicate Consumed(guess: string, target: string, k: nat, j: nat)
    requires Words(guess, target) && k <= WORD_LENGTH && j < WORD_LENGTH
  {
    guess[j] == target[j] || TargetMisses(guess, target, target[j], j) < GuessMisses(guess, target, target[j], k)
  }

  /** The set of used target indices is exactly the consumed positions after k guess positions. */
  ghost predicate UsedAfter(guess: string, target: string, k: nat, used: set<int>)
    requires Words(guess, target) && k <= WORD_LENGTH
  {
    forall j :: j in used <==> 0 <= j < WORD_LENGTH && Consumed(guess, target, k, j)
  }

  // ----- The algorithm -----

  /** The tile guess position k holds after the first pass. */
  function FirstPassTile(guess: string, target: string, k: nat): Tile
    requires Words(guess, target) && k < WORD_LENGTH
  {
    Tile([guess[k]], if guess[k] == target[k] then Correct else Absent)
  }

  /** The tile guess position k holds once the second pass has handled the positions below i. */
  function SecondPassTile(guess: string, target: string, i: nat, k: nat): Tile
    requires Words(guess, target) && k < WORD_LENGTH
  {
    if k < i then Tile([guess[k]], Verdict(guess, target, k)) else FirstPassTile(guess, target, k)
  }

  /**
   The game's two-pass scoring. The first pass marks positional matches Correct
   and records their indices as used; the second pass gives every other guess
   letter the first unused target position with the same letter (Present), or
   leaves it Absent. The result is `Evaluate`, and the target positions used
   are exactly the consumed ones.
   */
  method EvaluateGuess(guess: string, target: string) returns (result: seq<Tile>, ghost consumed: set<int>)
    requires Words(guess, target)
    ensures result == Evaluate(guess, target)
    ensures UsedAfter(guess, target, WORD_LENGTH, consumed)
  {
    var tiles := new Tile[WORD_LENGTH](_ => Tile("", Absent));
    var usedTargetIndices := MarkCorrect(tiles, guess, target);
    usedTargetIndices := MarkPresent(tiles, guess, target, usedTargetIndices);
    result := tiles[..];
    assert forall k :: 0 <= k < WORD_LENGTH ==> result[k] == Evaluate(guess, target)[k];
    consumed := usedTargetIndices;
  }

  /** First pass: every tile gets its letter; positional matches become Correct and use up their target index. */
  method MarkCorrect(tiles: array<Tile>, guess: string, target: string) returns (usedTargetIndices: set<int>)
    requires Words(guess, target) && tiles.Length == WORD_LENGTH
    requires forall k :: 0 <= k < WORD_LENGTH ==> tiles[k] == Tile("", Absent)
    modifies tiles
    ensures forall k :: 0 <= k < WORD_LENGTH ==> tiles[k] == FirstPassTile(guess, target, k)
    ensures UsedAfter(guess, target, 0, usedTargetIndices)
  {
    usedTargetIndices := {};
    for i := 0 to |guess|
      invariant forall k :: 0 <= k < i ==> tiles[k] == FirstPassTile(guess, target, k)
      invariant forall k :: i <= k < WORD_LENGTH ==> tiles[k] == Tile("", Absent)
      invariant forall j :: j in usedTargetIndices <==> 0 <= j < i && guess[j] == target[j]
    {
      tiles[i] := tiles[i].(letter := [guess[i]]);
      if guess[i] == target[i] {
        tiles[i] := tiles[i].(state := Correct);
        usedTargetIndices := usedTargetIndices + {i};
      }
    }
  }

  /**
   Second pass: every tile that is not Correct scans the target left to right
   and takes the first unused index holding its letter, becoming Present; a
   tile that finds none stays Absent.
   */
  method MarkPresent(tiles: array<Tile>, guess: string, target: string, used: set<int>)
    returns (usedTargetIndices: set<int>)
    requires Words(guess, target) && tiles.Length == WORD_LENGTH
    requires forall k :: 0 <= k < WORD_LENGTH ==> tiles[k] == FirstPassTile(guess, target, k)
    requires UsedAfter(guess, target, 0, used)
    modifies tiles
    ensures forall k :: 0 <= k < WORD_LENGTH ==> tiles[k] == Tile([guess[k]], Verdict(guess, target, k))
    ensures UsedAfter(guess, target, WORD_LENGTH, usedTargetIndices)
  {
    usedTargetIndices := used;
    for i := 0 to |guess|
      invariant forall k :: 0 <= k < WORD_LENGTH ==> tiles[k] == SecondPassTile(guess, target, i, k)
      invariant UsedAfter(guess, target, i, usedTargetIndices)
    {
      if tiles[i].state == Correct {
        HitStep(guess, target, i, usedTargetIndices);
        continue;
      }
      assert guess[i] != target[i];
      ghost var usedBefore := usedTargetIndices;
      var j := 0;
      label Scan:
      while j < |target|
        invariant 0 <= j <= |target|
        invariant unchanged@Scan(tiles) && usedTargetIndices == usedBefore
        invariant forall k :: 0 <= k < j ==> k in usedTargetIndices || target[k] != guess[i]
      {
        if j !in usedTargetIndices && guess[i] == target[j] {
          FoundStep(guess, target, i, j, usedTargetIndices);
          tiles[i] := tiles[i].(state := Present);
          usedTargetIndices := usedTargetIndices + {j};
          break;
        }
        j := j + 1;
      }
      if j == |target| {
        NotFoundStep(guess, target, i, usedTargetIndices);
      }
    }
  }

  // ----- Proof steps of the second pass -----

  /** An unmatched target position carrying c counts strictly fewer misses of c before it than any later bound. */
  lemma {:induction false} TargetMissesGrow(guess: string, target: string, c: char, j: nat, n: nat)
    requires j < n <= |guess| && n <= |target|
    requires target[j] == c && guess[j] != target[j]
    ensures TargetMisses(guess, target, c, j) < TargetMisses(guess, target, c, n)
  {
    if n > j + 1 {
      TargetMissesGrow(guess, target, c, j, n - 1);
    }
  }

  /** The guess-side twin of `TargetMissesGrow`. */
  lemma {:induction false} GuessMissesGrow(guess: string, target: string, c: char, i: nat, n: nat)
    requires i < n <= |guess| && n <= |target|
    requires guess[i] == c && guess[i] != target[i]
    ensures GuessMisses(guess, target, c, i) < GuessMisses(guess, target, c, n)
  {
    if n > i + 1 {
      GuessMissesGrow(guess, target, c, i, n - 1);
    }
  }

  /** Below every count of unmatched target positions carrying c sits a position with exactly that many before it. */
  lemma {:induction false} TargetMissAt(guess: string, target: string, c: char, n: nat, m: nat) returns (j: nat)
    requires n <= |guess| && n <= |target|
    requires m < TargetMisses(guess, target, c, n)
    ensures j < n && target[j] == c && guess[j] != target[j]
    ensures TargetMisses(guess, target, c, j) == m
  {
    if m < TargetMisses(guess, target, c, n - 1) {
      j := TargetMissAt(guess, target, c, n - 1, m);
    } else {
      j := n - 1;
    }
  }

  /** The inner scan stops at j: guess position i is Present and j joins the used positions. */
  lemma FoundStep(guess: string, target: string, i: nat, j: nat, used: set<int>)
    requires Words(guess, target) && i < WORD_LENGTH && j < WORD_LENGTH
    requires guess[i] != target[i] && target[j] == guess[i] && j !in used
    requires UsedAfter(guess, target, i, used)
    requires forall k :: 0 <= k < j ==> k in used || target[k] != guess[i]
    ensures Verdict(guess, target, i) == Present
    ensures UsedAfter(guess, target, i + 1, used + {j})
  {
    var c := guess[i];
    var m := GuessMisses(guess, target, c, i);
    if TargetMisses(guess, target, c, j) > m {
      var k := TargetMissAt(guess, target, c, j, m);
      assert false;
    }
    TargetMissesGrow(guess, target, c, j, WORD_LENGTH);
    forall x | 0 <= x < WORD_LENGTH
      ensures x in used + {j} <==> Consumed(guess, target, i + 1, x)
    {
      if x != j && target[x] == c && guess[x] != target[x] {
        if x < j {
          TargetMissesGrow(guess, target, c, x, j);
        } else {
          TargetMissesGrow(guess, target, c, j, x);
        }
      }
    }
  }

  /** Guess position i matches in place: it stays Correct and the second pass uses nothing for it. */
  lemma HitStep(guess: string, target: string, i: nat, used: set<int>)
    requires Words(guess, target) && i < WORD_LENGTH && guess[i] == target[i]
    requires UsedAfter(guess, target, i, used)
    ensures Verdict(guess, target, i) == Correct
    ensures UsedAfter(guess, target, i + 1, used)
  {
  }

  /** The inner scan runs off the end: guess position i is Absent and nothing more is used. */
  lemma NotFoundStep(guess: string, target: string, i: nat, used: set<int>)
    requires Words(guess, target) && i < WORD_LENGTH && guess[i] != target[i]
    requires UsedAfter(guess, target, i, used)
    requires forall k :: 0 <= k < WORD_LENGTH ==> k in used || target[k] != guess[i]
    ensures Verdict(guess, target, i) == Absent
    ensures UsedAfter(guess, target, i + 1, used)
  {
    var c := guess[i];
    var m := GuessMisses(guess, target, c, i);
    if m < TargetMisses(guess, target, c, WORD_LENGTH) {
      var k := TargetMissAt(guess, target, c, WORD_LENGTH, m);
      assert false;
    }
    forall x | 0 <= x < WORD_LENGTH
      ensures x in used <==> Consumed(guess, target, i + 1, x)
    {
      if target[x] == c && guess[x] != target[x] {
        TargetMissesGrow(guess, target, c, x, WORD_LENGTH);
      }
    }
  }

  // ----- What the verdicts mean -----

  /** Tiles among the first n of a row that show c and are Correct or Present. */
  function Marked(row: seq<Tile>, c: char, n: nat): nat
    requires n <= |row|
  {
    if n == 0 then 0
    else Marked(row, c, n - 1) + (if row[n - 1].letter == [c] && row[n - 1].state in {Correct, Present} then 1 else 0)
  }

  /** The occurrences of c in the guess split into positional matches and guess misses. */
  lemma {:induction false} GuessOccurrences(guess: string, target: string, c: char, n: nat)
    requires n <= |guess| && n <= |target|
    ensures multiset(guess[..n])[c] == Hits(guess, target, c, n) + GuessMisses(guess, target, c, n)
  {
    if n > 0 {
      GuessOccurrences(guess, target, c, n - 1);
      assert guess[..n] == guess[..n - 1] + [guess[n - 1]];
    }
  }

  /** The occurrences of c in the target split into positional matches and target misses. */
  lemma {:induction false} TargetOccurrences(guess: string, target: string, c: char, n: nat)
    requires n <= |guess| && n <= |target|
    ensures multiset(target[..n])[c] == Hits(guess, target, c, n) + TargetMisses(guess, target, c, n)
  {
    if n > 0 {
      TargetOccurrences(guess, target, c, n - 1);
      assert target[..n] == target[..n - 1] + [target[n - 1]];
    }
  }

  /** Over the first n tiles, c is marked on its positional matches and on at most as many misses as the target has left. */
  lemma {:induction false} MarkedPrefix(guess: string, target: string, c: char, n: nat)
    requires Words(guess, target) && n <= WORD_LENGTH
    ensures Marked(Evaluate(guess, target), c, n)
         == Hits(guess, target, c, n) + Min(GuessMisses(guess, target, c, n), TargetMisses(guess, target, c, WORD_LENGTH))
  {
    if n > 0 {
      MarkedPrefix(guess, target, c, n - 1);
      var row := Evaluate(guess, target);
      assert row[n - 1].letter == [c] <==> guess[n - 1] == c by {
        if row[n - 1].letter == [c] {
          assert [guess[n - 1]][0] == [c][0];
        }
      }
    }
  }

  /**
   No over-counting of repeated letters: for every letter, the tiles showing it
   as Correct or Present number the smaller of its occurrences in the guess and
   in the target.
   */
  lemma NoOverCount(guess: string, target: string, c: char)
    requires Words(guess, target)
    ensures Marked(Evaluate(guess, target), c, WORD_LENGTH) == Min(multiset(guess)[c], multiset(target)[c])
  {
    MarkedPrefix(guess, target, c, WORD_LENGTH);
    GuessOccurrences(guess, target, c, WORD_LENGTH);
    TargetOccurrences(guess, target, c, WORD_LENGTH);
    assert guess[..WORD_LENGTH] == guess && target[..WORD_LENGTH] == target;
  }

  /** Present marks for a letter go to the leftmost unmatched guess positions carrying it. */
  lemma PresentGoesLeftmost(guess: string, target: string, i: nat, i': nat)
    requires Words(guess, target) && i < i' < WORD_LENGTH
    requires guess[i] == guess[i'] && guess[i] != target[i] && guess[i'] != target[i']
    ensures Evaluate(guess, target)[i'].state == Present ==> Evaluate(guess, target)[i].state == Present
  {
    GuessMissesGrow(guess, target, guess[i], i, i');
  }

  /** Target positions are used lowest index first: a used unmatched position has every earlier one with its letter used too. */
  lemma ConsumedLeftmost(guess: string, target: string, x: nat, y: nat)
    requires Words(guess, target) && x < y < WORD_LENGTH
    requires target[x] == target[y] && guess[x] != target[x] && guess[y] != target[y]
    ensures Consumed(guess, target, WORD_LENGTH, y) ==> Consumed(guess, target, WORD_LENGTH, x)
  {
    TargetMissesGrow(guess, target, target[x], x, y);
  }

  lemma {:induction false} NoTargetMisses(guess: string, target: string, c: char, n: nat)
    requires n <= |guess| && n <= |target|
    requires forall j :: 0 <= j < n ==> target[j] != c
    ensures TargetMisses(guess, target, c, n) == 0
  {
    if n > 0 {
      NoTargetMisses(guess, target, c, n - 1);
    }
  }

  /** A guess sharing no letter with the target scores all Absent. */
  lemma NoSharedLetters(guess: string, target: string)
    requires Words(guess, target)
    requires forall i, j :: 0 <= i < WORD_LENGTH && 0 <= j < WORD_LENGTH ==> guess[i] != target[j]
    ensures forall i :: 0 <= i < WORD_LENGTH ==> Evaluate(guess, target)[i].state == Absent
  {
    forall i | 0 <= i < WORD_LENGTH
      ensures TargetMisses(guess, target, guess[i], WORD_LENGTH) == 0
    {
      NoTargetMisses(guess, target, guess[i], WORD_LENGTH);
    }
  }

  /** A row is all Correct exactly when the guess is the target. */
  lemma AllCorrectIff(guess: string, target: string)
    requires Words(guess, target)
    ensures (forall i :: 0 <= i < WORD_LENGTH ==> Evaluate(guess, target)[i].state == Correct) <==> guess == target
  {
    var row := Evaluate(guess, target);
    if forall i :: 0 <= i < WORD_LENGTH ==> row[i].state == Correct {
      forall i | 0 <= i < WORD_LENGTH
        ensures guess[i] == target[i]
      {
        assert row[i].state == Correct;
      }
    }
  }

  /** Repeated letters: SPEED against ERASE marks S, and both E's (the target has two), but not P or D. */
  lemma SpeedAgainstErase()
    ensures Evaluate("SPEED", "ERASE")
         == [Tile("S", Present), Tile("P", Absent), Tile("E", Present), Tile("E", Present), Tile("D", Absent)]
  {
    var g, t := "SPEED", "ERASE";
    assert TargetMisses(g, t, 'S', WORD_LENGTH) == 1;
    assert TargetMisses(g, t, 'P', WORD_LENGTH) == 0;
    assert TargetMisses(g, t, 'E', WORD_LENGTH) == 2;
    assert TargetMisses(g, t, 'D', WORD_LENGTH) == 0;
    assert GuessMisses(g, t, 'E', 3) == 1;
  }

  /** Repeated letters: EERIE against CRANE marks only the last E (matched in place); the first two are Absent. */
  lemma EerieAgainstCrane()
    ensures Evaluate("EERIE", "CRANE")
         == [Tile("E", Absent), Tile("E", Absent), Tile("R", Present), Tile("I", Absent), Tile("E", Correct)]
  {
    var g, t := "EERIE", "CRANE";
    assert TargetMisses(g, t, 'E', WORD_LENGTH) == 0;
    assert TargetMisses(g, t, 'R', WORD_LENGTH) == 1;
    assert TargetMisses(g, t, 'I', WORD_LENGTH) == 0;
  }
}
