/** Concrete runs of the dictionary on integer keys and string values. */
module Scenarios {
  import opened Errors
  import opened Entries
  import opened Dictionary

  /** Storing twice under one key keeps one entry with the second value. */
  lemma OverwriteScenario()
    ensures var d := Set(Set(New<int, string>(), 1, "a"), 1, "b");
      && Get(d, 1) == Ok("b")
      && d.Length() == 1
      && d.capacity == 2
  {
  }

  /** Two stores grow the buffer 1 -> 2 -> 3; popping the first key returns
      its value and moves the second key to position 0. */
  lemma PopScenario()
    ensures var d := Set(Set(New<int, string>(), 1, "a"), 2, "b");
      var p := Pop(d, 1);
      && d.capacity == 3
      && p.Ok? && p.value.0 == "a"
      && p.value.1.Length() == 1
      && IndexOf(p.value.1.entries, 1) == -1
      && IndexOf(p.value.1.entries, 2) == 0
  {
  }

  /** Position -1 is the last entry. */
  lemma PopIndexScenario()
    ensures var d := Dict([Entry(1, "a"), Entry(2, "b")], 3);
      PopIndex(d, -1) == Ok((Entry(2, "b"), Dict([Entry(1, "a")], 2)))
  {
    var es := [Entry(1, "a"), Entry(2, "b")];
    assert RemoveAt(es, 1) == [Entry(1, "a")];
  }

  /** Reading from a fresh dictionary fails with EmptyContainer, while
      searching it just reports -1. */
  lemma EmptyScenario()
    ensures Get(New<int, string>(), 1) == Err(EmptyContainer)
    ensures IndexOf(New<int, string>().entries, 1) == -1
  {
  }

  /** Merging {2: "x", 3: "y"} into {1: "a", 2: "b"}. */
  lemma UpdateScenario()
    ensures var self := Dict([Entry(1, "a"), Entry(2, "b")], 3);
      var other := Dict([Entry(2, "x"), Entry(3, "y")], 3);
      Update(self, other) == Dict([Entry(1, "a"), Entry(2, "x"), Entry(3, "y")], 4)
  {
    var self := Dict([Entry(1, "a"), Entry(2, "b")], 3);
    var os := [Entry(2, "x"), Entry(3, "y")];
    var once := Set(self, 2, "x");
    assert once == Dict([Entry(1, "a"), Entry(2, "x")], 3);
    assert os[1..] == [Entry(3, "y")];
    assert Set(once, 3, "y") == Dict([Entry(1, "a"), Entry(2, "x"), Entry(3, "y")], 4);
  }
}
