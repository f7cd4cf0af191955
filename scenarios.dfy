/** Concrete scenarios over small trail lists, proved as lemmas. */
module FilterScenarios {
  import opened JsString
  import opened TrailFilter

  function Hike(title: string, hours: int): Trail {
    Trail(title, "", Easy, hours, Summer)
  }

  /** Durations 2, 5 and 8 with a 4-hour bound: only the 2-hour trail is left. */
  lemma DurationScenario()
    ensures Filter([Hike("A", 2), Hike("B", 5), Hike("C", 8)], UNFILTERED.(maxDuration := Some(4)))
      == [Hike("A", 2)]
  {
  }

  // The fixed strings below enter as parameters constrained by `requires`,
  // which keeps them out of literal arguments to `Lower` and `Includes`:
  // with literal arguments the verifier unfolds those recursive functions
  // eagerly and runs out of resources.

  lemma ValleFound(title: string)
    requires title == "Valle dell'Orso"
    ensures Includes(Lower(title), Lower("valle"))
  {
    LowerOfLowered("valle");
    var lowered := Lower(title);
    assert lowered[0] == LowerChar(title[0]) == 'v';
    assert lowered[1] == 'a' && lowered[2] == 'l' && lowered[3] == 'l' && lowered[4] == 'e';
    assert lowered[..5] == "valle";
  }

  lemma NotIncluded(s: string)
    requires s == "monte bianco" || s == ""
    ensures !Includes(s, "valle")
  {
    if Includes(s, "valle") {
      IncludesFirstChar(s, "valle");
      assert false;
    }
  }

  lemma MonteNotFound(title: string)
    requires title == "Monte Bianco"
    ensures !Includes(Lower(title), Lower("valle")) && !Includes(Lower(""), Lower("valle"))
  {
    LowerOfLowered("valle");
    LowerOfLowered("");
    var lowered := Lower(title);
    assert lowered == "monte bianco";
    NotIncluded(lowered);
    NotIncluded("");
  }

  /** The search "valle" finds "Valle dell'Orso" but not "Monte Bianco". */
  lemma SearchScenario(valle: Trail, monte: Trail)
    requires valle == Hike("Valle dell'Orso", 3) && monte == Hike("Monte Bianco", 6)
    ensures Filter([valle, monte], UNFILTERED.(search := "valle")) == [valle]
  {
    var c := UNFILTERED.(search := "valle");
    var ts := [valle, monte];
    ValleFound(valle.title);
    MonteNotFound(monte.title);
    assert Matches(valle, c) && !Matches(monte, c);
    assert Filter(ts, c) == [valle] + Filter(ts[1..], c);
    assert ts[1..][1..] == [];
  }

  /** The same search typed in capitals finds the same trails. */
  lemma CapitalSearchScenario(ts: seq<Trail>)
    ensures Filter(ts, UNFILTERED.(search := "VALLE")) == Filter(ts, UNFILTERED.(search := "valle"))
  {
    assert Lower("VALLE") == "valle";
    LowerOfLowered("valle");
    SearchIgnoresCase(ts, UNFILTERED, "VALLE", "valle");
  }
}
