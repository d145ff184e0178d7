/**
 * Indexes: validating the 1-based slot indices the player gives for a hit.
 * The indices arrive already parsed from the player's line, as C `int`s.
 */
module Indexes {
  import opened Words

  /** 2^64: `std::size_t` arithmetic wraps modulo this. */
  const SizeModulus: int := 0x1_0000_0000_0000_0000

  predicate IsInt32(i: int) {
    -0x8000_0000 <= i < 0x8000_0000
  }

  /** `static_cast<size_t>(i) - 1`: the 0-based slot, wrapped into `size_t`. */
  function SizeTMinusOne(i: int): (r: int)
    ensures 0 <= r < SizeModulus
    ensures 1 <= i <= SizeModulus ==> r == i - 1
    ensures -SizeModulus < i < 1 ==> r == SizeModulus + i - 1
  {
    (i - 1) % SizeModulus
  }

  /** A 1-based index the player may name: inside the word, at a slot not yet revealed. */
  predicate Admissible(word: seq<char>, i: int) {
    1 <= i <= |word| && word[i - 1] == '\0'
  }

  /** The wrapped `size_t` range test, with the unknown-slot test, accepts exactly the admissible indices. */
  lemma {:induction false} WrappedTestMeansAdmissible(word: seq<char>, i: int)
    requires IsInt32(i) && |word| < SizeModulus / 2
    ensures (!(SizeTMinusOne(i) >= |word|) && word[SizeTMinusOne(i)] == '\0') <==> Admissible(word, i)
  {
    if i >= 1 {
      assert SizeTMinusOne(i) == i - 1;
    } else {
      assert SizeTMinusOne(i) == SizeModulus + i - 1;
    }
  }

  /** Where the first inadmissible index stands, or |indices| when there is none. */
  function FirstIllegal(word: seq<char>, indices: seq<int>): (k: nat)
    ensures k <= |indices|
    ensures forall j :: 0 <= j < k ==> Admissible(word, indices[j])
    ensures k < |indices| ==> !Admissible(word, indices[k])
    decreases |indices|
  {
    if indices == [] || !Admissible(word, indices[0]) then 0
    else 1 + FirstIllegal(word, indices[1..])
  }

  /** The 0-based slots the indices name, duplicates collapsed. */
  function Slots(indices: seq<int>): set<int> {
    set j | 0 <= j < |indices| :: indices[j] - 1
  }

  /** The return code the validation arrives at for `indices`. */
  function Verdict(word: seq<char>, indices: seq<int>): ReturnCode {
    if FirstIllegal(word, indices) < |indices| then IllegalInput
    else if indices == [] then NoInput
    else Success
  }

  /** A successful validation names a non-empty set of unknown slots inside the word. */
  lemma {:induction false} SuccessSlotsAreUnknown(word: seq<char>, indices: seq<int>)
    requires Verdict(word, indices) == Success
    ensures Slots(indices) != {}
    ensures forall p :: p in Slots(indices) ==> 0 <= p < |word| && word[p] == '\0'
  {
    assert indices[0] - 1 in Slots(indices);
    forall p | p in Slots(indices) ensures 0 <= p < |word| && word[p] == '\0' {
      var j :| 0 <= j < |indices| && p == indices[j] - 1;
      assert Admissible(word, indices[j]);
    }
  }

  /**
   * Inserts each index, made 0-based, into `pos`; stops with IllegalInput at
   * the first index outside the word or at a slot already revealed. With no
   * index at all the answer is NoInput. `pos` starts empty, as every caller's
   * set does.
   */
  method ReadIndexes(word: seq<char>, indices: seq<int>) returns (code: ReturnCode, pos: set<int>)
    requires forall j :: 0 <= j < |indices| ==> IsInt32(indices[j])
    requires |word| < SizeModulus / 2
    ensures code == Verdict(word, indices)
    ensures code == IllegalInput <==> exists j :: 0 <= j < |indices| && !Admissible(word, indices[j])
    ensures code == NoInput <==> indices == []
    ensures code == Success <==> indices != [] && forall j :: 0 <= j < |indices| ==> Admissible(word, indices[j])
    ensures pos == Slots(indices[..FirstIllegal(word, indices)])
    ensures code != IllegalInput ==> pos == Slots(indices)
  {
    pos := {};
    var j := 0;
    while j < |indices|
      invariant 0 <= j <= |indices|
      invariant forall l :: 0 <= l < j ==> Admissible(word, indices[l])
      invariant j <= FirstIllegal(word, indices)
      invariant pos == Slots(indices[..j])
    {
      var i := indices[j];
      WrappedTestMeansAdmissible(word, i);
      if SizeTMinusOne(i) >= |word| || word[SizeTMinusOne(i)] != '\0' {
        code := IllegalInput;
        return;
      }
      assert indices[..j + 1] == indices[..j] + [i];
      assert Slots(indices[..j + 1]) == Slots(indices[..j]) + {i - 1} by {
        var prefix := indices[..j + 1];
        forall p | p in Slots(prefix) ensures p in Slots(indices[..j]) + {i - 1} {
          var l :| 0 <= l < |prefix| && p == prefix[l] - 1;
          if l < j {
            assert prefix[l] == indices[..j][l];
          }
        }
        forall p | p in Slots(indices[..j]) ensures p in Slots(prefix) {
          var l :| 0 <= l < j && p == indices[..j][l] - 1;
          assert prefix[l] == indices[..j][l];
        }
        assert prefix[j] - 1 in Slots(prefix);
      }
      pos := pos + {i - 1};
      j := j + 1;
    }
    assert indices[..|indices|] == indices;
    assert indices != [] ==> indices[0] - 1 in pos;
    if pos == {} {
      code := NoInput;
      return;
    }
    code := Success;
  }
}
