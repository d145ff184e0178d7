/**
 * Filters: narrowing the candidate list with the evidence of one guess.
 * A hit names the letter and the 0-based slots where it occurs; a miss names
 * a letter that occurs nowhere. Both operations only remove words and keep
 * the survivors in their original order.
 */
module Filters {
  import opened Words

  /** What the player disclosed about one guessed letter. */
  datatype Evidence = Hit(letter: char, pos: set<int>) | Miss(letter: char)

  /** A word is consistent with the evidence: on a hit the letter occurs at
      exactly the given slots and nowhere else, on a miss it does not occur. */
  predicate Fits(w: Word, e: Evidence) {
    match e
    case Hit(c, pos) => forall i :: 0 <= i < |w.str| ==> (i in pos <==> w.str[i] == c)
    case Miss(c) => c !in w.str
  }

  /** The words of `list` that fit `e`, in their original order. */
  function Survivors(list: seq<Word>, e: Evidence): seq<Word>
    decreases |list|
  {
    if list == [] then []
    else
      var n := |list|;
      Survivors(list[..n - 1], e) + (if Fits(list[n - 1], e) then [list[n - 1]] else [])
  }

  /**
   * `a` is `b` with some elements deleted and the rest in their original
   * order: the last element of `b` is either kept as the last of `a` or dropped.
   */
  ghost predicate IsSubsequence(a: seq<Word>, b: seq<Word>)
    decreases |b|
  {
    if b == [] then a == []
    else
      var n := |b|;
      (a != [] && a[|a| - 1] == b[n - 1] && IsSubsequence(a[..|a| - 1], b[..n - 1]))
      || IsSubsequence(a, b[..n - 1])
  }

  /** Every list is a subsequence of itself. */
  lemma {:induction false} SubsequenceReflexive(a: seq<Word>)
    ensures IsSubsequence(a, a)
    decreases |a|
  {
    if a != [] {
      SubsequenceReflexive(a[..|a| - 1]);
    }
  }

  /** A subsequence is never longer than the list it is taken from. */
  lemma {:induction false} SubsequenceShorter(a: seq<Word>, b: seq<Word>)
    requires IsSubsequence(a, b)
    ensures |a| <= |b|
    decreases |b|
  {
    if b != [] {
      var n := |b|;
      if a != [] && a[|a| - 1] == b[n - 1] && IsSubsequence(a[..|a| - 1], b[..n - 1]) {
        SubsequenceShorter(a[..|a| - 1], b[..n - 1]);
      } else {
        SubsequenceShorter(a, b[..n - 1]);
      }
    }
  }

  /** Deleting twice is deleting once: a subsequence of a subsequence of `c` is one of `c`. */
  lemma {:induction false} SubsequenceTransitive(a: seq<Word>, b: seq<Word>, c: seq<Word>)
    requires IsSubsequence(a, b) && IsSubsequence(b, c)
    ensures IsSubsequence(a, c)
    decreases |c|
  {
    if c != [] {
      var n := |c|;
      if b != [] && b[|b| - 1] == c[n - 1] && IsSubsequence(b[..|b| - 1], c[..n - 1]) {
        var m := |b|;
        if a != [] && a[|a| - 1] == b[m - 1] && IsSubsequence(a[..|a| - 1], b[..m - 1]) {
          SubsequenceTransitive(a[..|a| - 1], b[..m - 1], c[..n - 1]);
        } else {
          SubsequenceTransitive(a, b[..m - 1], c[..n - 1]);
        }
      } else {
        SubsequenceTransitive(a, b, c[..n - 1]);
      }
    }
  }

  /** A word survives exactly when it was in the list and fits the evidence. */
  lemma {:induction false} SurvivorsMembers(list: seq<Word>, e: Evidence)
    ensures forall w :: w in Survivors(list, e) <==> w in list && Fits(w, e)
    decreases |list|
  {
    if list != [] {
      var n := |list|;
      SurvivorsMembers(list[..n - 1], e);
      assert list == list[..n - 1] + [list[n - 1]];
    }
  }

  /** Filtering keeps the survivors in their original order. */
  lemma {:induction false} SurvivorsSubsequence(list: seq<Word>, e: Evidence)
    ensures IsSubsequence(Survivors(list, e), list)
    decreases |list|
  {
    if list != [] {
      var n := |list|;
      var front := list[..n - 1];
      SurvivorsSubsequence(front, e);
      var r := Survivors(list, e);
      if Fits(list[n - 1], e) {
        assert r[..|r| - 1] == Survivors(front, e);
      } else {
        assert r == Survivors(front, e);
      }
    }
  }

  /** Filtering keeps every copy of a fitting word and no copy of any other. */
  lemma {:induction false} SurvivorsCount(list: seq<Word>, e: Evidence, w: Word)
    ensures multiset(Survivors(list, e))[w] == if Fits(w, e) then multiset(list)[w] else 0
    decreases |list|
  {
    if list != [] {
      var n := |list|;
      SurvivorsCount(list[..n - 1], e, w);
      assert list == list[..n - 1] + [list[n - 1]];
    }
  }

  /** A list whose words all fit the evidence comes through unchanged. */
  lemma {:induction false} SurvivorsAllFit(list: seq<Word>, e: Evidence)
    requires forall k :: 0 <= k < |list| ==> Fits(list[k], e)
    ensures Survivors(list, e) == list
    decreases |list|
  {
    if list != [] {
      var n := |list|;
      SurvivorsAllFit(list[..n - 1], e);
      assert list == list[..n - 1] + [list[n - 1]];
    }
  }

  /** Filtering twice with the same evidence removes nothing more. */
  lemma SurvivorsIdempotent(list: seq<Word>, e: Evidence)
    ensures Survivors(Survivors(list, e), e) == Survivors(list, e)
  {
    var r := Survivors(list, e);
    SurvivorsMembers(list, e);
    forall k | 0 <= k < |r| ensures Fits(r[k], e) {
      assert r[k] in r;
    }
    SurvivorsAllFit(r, e);
  }

  /** A miss on a letter that no candidate contains leaves the list as it is. */
  lemma MissOnAbsentLetter(list: seq<Word>, c: char)
    requires forall k :: 0 <= k < |list| ==> c !in list[k].str
    ensures Survivors(list, Miss(c)) == list
  {
    SurvivorsAllFit(list, Miss(c));
  }

  /**
   * The removal test of the hit filter: the word goes when some slot outside
   * `pos` holds `latest`, or some slot inside `pos` does not.
   */
  method Contradicts(w: Word, latest: char, pos: set<int>) returns (remove: bool)
    ensures remove <==> !Fits(w, Hit(latest, pos))
  {
    var i := 0;
    while i != |w.str|
      invariant 0 <= i <= |w.str|
      invariant forall j :: 0 <= j < i ==> (j in pos <==> w.str[j] == latest)
    {
      if i !in pos {
        if w.str[i] == latest {
          return true;
        }
      } else {
        if w.str[i] != latest {
          return true;
        }
      }
      i := i + 1;
    }
    return false;
  }

  /** Removes the words that do not carry `latest` at exactly the slots `pos`. */
  method FilterGuessed(list: seq<Word>, latest: char, pos: set<int>) returns (r: seq<Word>)
    ensures r == Survivors(list, Hit(latest, pos))
    ensures IsSubsequence(r, list) && |r| <= |list|
  {
    r := [];
    var i := 0;
    while i < |list|
      invariant 0 <= i <= |list|
      invariant r == Survivors(list[..i], Hit(latest, pos))
    {
      assert list[..i + 1][..i] == list[..i];
      var remove := Contradicts(list[i], latest, pos);
      if !remove {
        r := r + [list[i]];
      }
      i := i + 1;
    }
    assert list[..|list|] == list;
    SurvivorsSubsequence(list, Hit(latest, pos));
    SubsequenceShorter(r, list);
  }

  /** Removes the words that contain `guess` anywhere. */
  method FilterFailedToGuess(list: seq<Word>, guess: char) returns (r: seq<Word>)
    ensures r == Survivors(list, Miss(guess))
    ensures IsSubsequence(r, list) && |r| <= |list|
  {
    r := [];
    var i := 0;
    while i < |list|
      invariant 0 <= i <= |list|
      invariant r == Survivors(list[..i], Miss(guess))
    {
      assert list[..i + 1][..i] == list[..i];
      if guess !in list[i].str {
        r := r + [list[i]];
      }
      i := i + 1;
    }
    assert list[..|list|] == list;
    SurvivorsSubsequence(list, Miss(guess));
    SubsequenceShorter(r, list);
  }
}
