/**
 * A worked case: five calls, three from Nairobi and two from the Coast;
 * picking Nairobi leaves three rows, and the region table then holds the
 * single line ("Nairobi", 3).
 */
module Scenarios {
  import opened Counting
  import opened Incidents
  import opened Stats

  function Call(region: string): Row
  {
    Row("2022-05-01T10:00:00+03:00", region, "X", "P", "I", "S", "F")
  }

  lemma NairobiRows()
    ensures var n, c := Call("Nairobi"), Call("Coast");
      Where([n, c, n, c, n], Equals(Region, "Nairobi")) == [n, n, n]
  {
    var n, c := Call("Nairobi"), Call("Coast");
    var ms := [Equals(Region, "Nairobi")];
    HoldsOne(ms[0], n);
    HoldsOne(ms[0], c);
    assert [n, c, n, c, n][..4] == [n, c, n, c];
    assert [n, c, n, c][..3] == [n, c, n];
    assert [n, c, n][..2] == [n, c];
    assert [n, c][..1] == [n];
    assert [n][..0] == [];
    assert Select([n], ms) == [n];
    assert Select([n, c], ms) == [n];
    assert Select([n, c, n], ms) == [n, n];
    assert Select([n, c, n, c], ms) == [n, n];
  }

  lemma NairobiTable()
    ensures var n := Call("Nairobi");
      ValueCounts([n, n, n], Region) == [Entry("Nairobi", 3)]
  {
    var n := Call("Nairobi");
    var t := ValueCounts([n, n, n], Region);
    var col := Values([n, n, n], Region);
    assert col == ["Nairobi", "Nairobi", "Nairobi"];
    assert forall i :: 0 <= i < |t| ==> t[i].key == "Nairobi" by {
      forall i | 0 <= i < |t| ensures t[i].key == "Nairobi" {
        assert Keys(t)[i] in col;
      }
    }
    assert "Nairobi" in Keys(t);
    assert t == [t[0]];
    assert Total(t) == t[0].count;
  }
}
