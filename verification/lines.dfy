/**
 * The duplicate test every conflict check of the board is built on: a line
 * (a row, a column or a diagonal, extracted as a sequence of cells) holds a
 * conflict when the first and the last position of a 1 in it differ.
 */
module Lines {

  /** Position of the first occurrence of `x` in `s`, or -1 (Array.prototype.indexOf). */
  function IndexOf(s: seq<int>, x: int): (k: int)
    ensures -1 <= k < |s|
    ensures k == -1 <==> x !in s
    ensures 0 <= k ==> s[k] == x && x !in s[..k]
  {
    if |s| == 0 then -1
    else if s[0] == x then 0
    else
      var k := IndexOf(s[1..], x);
      assert 0 <= k ==> s[..k + 1] == [s[0]] + s[1..][..k];
      if k == -1 then -1 else k + 1
  }

  /** Position of the last occurrence of `x` in `s`, or -1 (Array.prototype.lastIndexOf). */
  function LastIndexOf(s: seq<int>, x: int): (k: int)
    ensures -1 <= k < |s|
    ensures k == -1 <==> x !in s
    ensures 0 <= k ==> s[k] == x && x !in s[k + 1..]
  {
    if |s| == 0 then -1
    else if s[|s| - 1] == x then |s| - 1
    else
      var init := s[..|s| - 1];
      assert s == init + [s[|s| - 1]];
      var k := LastIndexOf(init, x);
      assert 0 <= k ==> s[k + 1..] == init[k + 1..] + [s[|s| - 1]];
      k
  }

  /** The board's duplicate test: `line.indexOf(1) !== line.lastIndexOf(1)`. */
  predicate LineConflict(line: seq<int>)
  {
    IndexOf(line, 1) != LastIndexOf(line, 1)
  }

  /** Two distinct positions holding a 1. */
  predicate HasTwoOnes(line: seq<int>)
  {
    exists j, k :: 0 <= j < k < |line| && line[j] == 1 && line[k] == 1
  }

  /** The first and last index of 1 differ exactly when two positions hold a 1. */
  lemma LineConflictIffPair(line: seq<int>)
    ensures LineConflict(line) <==> HasTwoOnes(line)
  {
    var i, l := IndexOf(line, 1), LastIndexOf(line, 1);
    if LineConflict(line) {
      assert 0 <= i && 0 <= l;
      assert line[i] == 1 && line[l] == 1 && i < l;
    }
    if HasTwoOnes(line) {
      var j, k :| 0 <= j < k < |line| && line[j] == 1 && line[k] == 1;
      assert i <= j < k <= l;
    }
  }

  /** The first and last index of 1 differ exactly when the line holds at least two 1s. */
  lemma LineConflictIffTwoOnes(line: seq<int>)
    ensures LineConflict(line) <==> multiset(line)[1] >= 2
  {
    LineConflictIffPair(line);
    var i, l := IndexOf(line, 1), LastIndexOf(line, 1);
    if LineConflict(line) {
      var j, k :| 0 <= j < k < |line| && line[j] == 1 && line[k] == 1;
      TwoOnesCounted(line, j, k);
    } else if i == -1 {
      assert 1 !in multiset(line);
    } else {
      SingleOneCounted(line, i);
    }
  }

  /** Two positions holding 1 contribute two to the multiset count. */
  lemma TwoOnesCounted(line: seq<int>, j: nat, k: nat)
    requires j < k < |line| && line[j] == 1 && line[k] == 1
    ensures multiset(line)[1] >= 2
  {
    assert line == line[..k] + line[k..];
    assert line[j] in line[..k];
    assert line[k] in line[k..];
    assert multiset(line) == multiset(line[..k]) + multiset(line[k..]);
  }

  /** A 1 with no other 1 before or after it is the only one. */
  lemma SingleOneCounted(line: seq<int>, i: nat)
    requires i < |line| && line[i] == 1 && 1 !in line[..i] && 1 !in line[i + 1..]
    ensures multiset(line)[1] == 1
  {
    assert line == line[..i] + [line[i]] + line[i + 1..];
    assert multiset(line) == multiset(line[..i]) + multiset([line[i]]) + multiset(line[i + 1..]);
    assert 1 !in multiset(line[..i]);
    assert 1 !in multiset(line[i + 1..]);
  }
}
