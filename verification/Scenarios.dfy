/** Worked examples on small concrete stores: the behaviour a quiz caller
    observes for a few typical requests. */
module Scenarios {
  import opened Entities
  import opened Repository
  import opened JavaStrings
  import opened QuizSelection
  import opened Scoring

  const paris := Question(1, "Capital of France?", "Paris", "London", "Rome", "Berlin", Present("Paris"), "geo")

  lemma InOneToFive(ids: seq<int>, id: int)
    requires ids == [1, 2, 3, 4, 5] && id in ids
    ensures 1 <= id <= 5
  {
  }

  /** A category whose questions have the ids 1 to 5: asking for 3 of them gives
      3 distinct ids among 1 to 5, whatever the random source draws. */
  lemma ThreeOfFive(fetched: seq<Question>, nextInt: nat -> nat)
    requires DrawsBelow(nextInt)
    requires Ids(fetched) == [1, 2, 3, 4, 5]
    ensures var r := Selection(fetched, 3, nextInt);
      r.status == Ok && |r.body| == 3 && Distinct(r.body) &&
      forall id :: id in r.body ==> 1 <= id <= 5
  {
    var ids := Ids(fetched);
    DistinctIdsIsDistinct(fetched);
    SelectionMeaning(fetched, 3, nextInt);
    var body := Selection(fetched, 3, nextInt).body;
    forall id | id in body ensures 1 <= id <= 5 {
      assert id in ids;
      InOneToFive(ids, id);
    }
  }

  /** A trimmed, case-insensitive match scores. */
  lemma ParisMatches()
    ensures Score([paris], [Response(1, Present(" paris "))]) == Some(1)
  {
    var rs := [Response(1, Present(" paris "))];
    ParisAnswerMap(rs);
    SpacedParisTrims();
    assert EqualsIgnoreCase("Paris", "paris");
    assert rs[..0] == [];
  }

  /** The map built for a single response to question 1. */
  lemma ParisAnswerMap(rs: seq<Response>)
    requires |rs| == 1 && rs[0].id == 1
    ensures AnswerMap(FilterByIds([paris], ResponseIds(rs))) == Some(map[1 := "Paris"])
  {
    assert ResponseIds(rs) == [1];
    assert FilterByIds([paris], [1]) == [paris];
    assert [paris][..0] == [];
  }

  lemma SpacedParisTrims()
    ensures Trim(" paris ") == "paris"
  {
    var s := " paris ";
    assert s[1..] == "paris ";
    assert LeadingCount("paris ") == 0;
    assert LeadingCount(s) == 1;
    assert TrailingCount("paris ") == 1 by {
      assert "paris "[..5] == "paris";
      assert TrailingCount("paris") == 0;
    }
    assert "paris "[..5] == "paris";
  }
  /** A different answer does not. */
  lemma LondonMisses()
    ensures Score([paris], [Response(1, Present("London"))]) == Some(0)
  {
    var rs := [Response(1, Present("London"))];
    ParisAnswerMap(rs);
    assert !EqualsIgnoreCase("Paris", Trim("London"));
    assert rs[..0] == [];
  }
  /** Responses to an id that is not stored score nothing and do not fail,
      even one whose text is null. */
  lemma UnknownIdsScoreZero()
    ensures Score([paris], [Response(99, Present("Paris")), Response(99, Null)]) == Some(0)
  {
    var rs := [Response(99, Present("Paris")), Response(99, Null)];
    assert ResponseIds(rs) == [99, 99];
    assert FilterByIds([paris], [99, 99]) == [];
    assert rs[..1] == [Response(99, Present("Paris"))];
    assert rs[..1][..0] == [];
    assert AnswerMap([]) == Some(map[]);
    assert Tally(map[], rs[..1]) == Some(0);
    assert rs[..2] == rs;
    assert Tally(map[], rs) == Some(0);
  }
}
