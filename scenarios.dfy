/** Concrete uses of the array and set operations, with the answers they must give. */
module Scenarios {
  import opened Optional
  import SheepdogArray
  import SheepdogSet

  lemma FilterPositives()
    ensures SheepdogArray.Filter([1, -1, -3, 4], (x: int) => x > 0) == [1, 4]
  {
  }

  lemma ReduceSum()
    ensures SheepdogArray.Reduce([1, -1, -2, 4], 0, (a: int, b: int) => a + b) == 2
  {
  }

  lemma MapIncrement()
    ensures SheepdogArray.Map([1, -1], (x: int) => Some(x + 1)) == [2, 0]
  {
  }

  lemma PartitionPairs()
    ensures SheepdogArray.Partition([1, 2, 3, 4], 2) == [[1, 2], [3, 4]]
    ensures SheepdogArray.Partition([1, 2, 3, 4, 5], 2) == [[1, 2], [3, 4], [5]]
  {
    var s := [1, 2, 3, 4];
    assert s[..2] == [1, 2] && s[2..] == [3, 4];
    var t := [1, 2, 3, 4, 5];
    assert t[..2] == [1, 2] && t[2..] == [3, 4, 5];
    assert t[2..][..2] == [3, 4] && t[2..][2..] == [5];
  }

  /** The key used by the partitionBy: scenario: the length of a word. */
  function Length(w: string): nat
  {
    |w|
  }

  lemma PartitionByLength()
    ensures SheepdogArray.PartitionBy(["bob", "cat", "mat", "sing", "song"], Length)
         == [["bob", "cat", "mat"], ["sing", "song"]]
  {
    var w := ["bob", "cat", "mat", "sing", "song"];
    assert w[1..] == ["cat", "mat", "sing", "song"];
    assert w[2..] == ["mat", "sing", "song"] == w[1..][1..];
    assert w[3..] == ["sing", "song"] == w[2..][1..];
    assert w[4..] == ["song"] == w[3..][1..];
    assert Length("bob") == Length("cat") == Length("mat") == 3;
    assert Length("sing") == Length("song") == 4;
    assert w[4..][1..] == [];
    assert SheepdogArray.PartitionBy(w[4..], Length) == [["song"]];
    assert ["sing"] + ["song"] == ["sing", "song"];
    assert SheepdogArray.PartitionBy(w[3..], Length) == [["sing", "song"]];
    assert SheepdogArray.PartitionBy(w[2..], Length) == [["mat"], ["sing", "song"]];
    assert ["cat"] + ["mat"] == ["cat", "mat"];
    assert SheepdogArray.PartitionBy(w[1..], Length) == [["cat", "mat"], ["sing", "song"]];
    assert ["bob"] + ["cat", "mat"] == ["bob", "cat", "mat"];
  }

  lemma AnyEveryNegative()
    ensures SheepdogArray.Any([1, -1, 2, 4], (x: int) => x < 0)
    ensures !SheepdogArray.Every([1, -1, 2, 4], (x: int) => x < 0)
  {
  }
}
