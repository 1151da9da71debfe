/**
 * The sample sets at the end of the program, as concrete facts about the
 * specification functions: sets built from the characters of "string" and
 * "strmk" and from 1, 2, 3, 4, and the combinations the program displays.
 */
module Demo {
  import opened SetSpec

  /** Building a set from a duplicate-free sequence keeps that sequence. */
  lemma DemoSources()
    ensures Dedup("string") == "string"
    ensures Dedup("strmk") == "strmk"
    ensures Dedup([1, 2, 3, 4]) == [1, 2, 3, 4]
  {
    assert Dedup("string") == "string" by {
      var s := "string";
      forall i, j | 0 <= i < j < |s|
        ensures s[i] != s[j]
      {
      }
      DedupOfNoDups(s);
    }
    assert Dedup("strmk") == "strmk" by {
      var s := "strmk";
      forall i, j | 0 <= i < j < |s|
        ensures s[i] != s[j]
      {
      }
      DedupOfNoDups(s);
    }
    assert Dedup([1, 2, 3, 4]) == [1, 2, 3, 4] by {
      DedupOfNoDups([1, 2, 3, 4]);
    }
  }

  /** "strmk" has two characters that "string" lacks. */
  lemma DemoNew()
    ensures Minus("strmk", "string") == "mk"
  {
    var t := "string";
    assert 'm' !in t && 'k' !in t;
    assert Minus("mk", t) == "mk";
  }

  /** The union of "string" with "strmk" appends the two new characters. */
  lemma DemoUnion()
    ensures Union("string", "strmk") == "stringmk"
  {
    DemoNew();
    assert "string" + "mk" == "stringmk";
  }

  /** The intersection of "string" with "strmk" keeps the shared prefix. */
  lemma DemoInter()
    ensures Inter("string", "strmk") == "str"
  {
    var t := "strmk";
    assert 'i' !in t && 'n' !in t && 'g' !in t;
    assert Inter("ing", t) == [];
  }

  /** The difference of "string" and "strmk" keeps the characters only "string" has. */
  lemma DemoDifference()
    ensures Minus("string", "strmk") == "ing"
  {
    var t := "strmk";
    assert 'i' !in t && 'n' !in t && 'g' !in t;
    assert Minus("ing", t) == "ing";
  }

  /** The symmetric difference of "string" and "strmk" is each side's own characters. */
  lemma DemoSymDiff()
    ensures SymDiff("string", "strmk") == "ingmk"
  {
    DemoDifference();
    DemoNew();
    assert "ing" + "mk" == "ingmk";
  }

  /** "strmk" is not a subset of "string", so "string" is not a superset of it either. */
  lemma DemoNotSubset()
    ensures !SubsetOf("strmk", "string")
  {
    assert "strmk"[3] == 'm';
    assert 'm' !in "string";
  }
}
