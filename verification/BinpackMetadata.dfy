/** The metadata of a container. */
module BinpackMetadata {
  // The pairs a parse collects, by the place of their record: one for every key-value with a child
  // at the top of a METADATA section, its key with that child, in file order.

  import opened BinpackContainer
  import opened BinpackRecords
  import opened Common

  /** Record `at.1` of section `at.0`. */
  type Place = (nat, nat)

  predicate Before(a: Place, b: Place) {
    a.0 < b.0 || (a.0 == b.0 && a.1 < b.1)
  }

  /** A key-value with a child, at the top of the section. */
  predicate IsPair(records: seq<Record>, r: nat) {
    r < |records| && records[r].body.KeyvalBody? && records[r].body.children != []
  }

  predicate Chosen(sections: seq<Section>, p: Place) {
    p.0 < |sections| && sections[p.0].entry.kind == Metadata && IsPair(sections[p.0].records, p.1)
  }

  /** The key of a chosen record, with its child. */
  function PairAt(sections: seq<Section>, p: Place): (bytes, Record)
    requires Chosen(sections, p)
  {
    var body := sections[p.0].records[p.1].body;
    (body.key, body.children[0])
  }

  ghost predicate Ascending(places: seq<Place>) {
    forall i, j | 0 <= i < j < |places| :: Before(places[i], places[j])
  }

  ghost predicate AllChosen(sections: seq<Section>, places: seq<Place>) {
    forall p: Place :: Chosen(sections, p) <==> p in places
  }

  ghost predicate Matches(pairs: seq<(bytes, Record)>, places: seq<Place>, sections: seq<Section>) {
    && |pairs| == |places|
    && forall i | 0 <= i < |places| :: Chosen(sections, places[i]) && pairs[i] == PairAt(sections, places[i])
  }

  /** The pairs are those at the chosen places, each once and in order. */
  ghost predicate PairsAt(pairs: seq<(bytes, Record)>, places: seq<Place>, sections: seq<Section>) {
    Ascending(places) && AllChosen(sections, places) && Matches(pairs, places, sections)
  }

  function PairIn(records: seq<Record>, r: nat): (bytes, Record)
    requires IsPair(records, r)
  {
    (records[r].body.key, records[r].body.children[0])
  }

  ghost predicate AllPairs(records: seq<Record>, at: seq<nat>) {
    forall r: nat :: IsPair(records, r) <==> r in at
  }

  ghost predicate PairsMatch(pairs: seq<(bytes, Record)>, at: seq<nat>, records: seq<Record>) {
    && |pairs| == |at|
    && forall i | 0 <= i < |at| :: IsPair(records, at[i]) && pairs[i] == PairIn(records, at[i])
  }

  ghost predicate Rising(at: seq<nat>) {
    forall i, j | 0 <= i < j < |at| :: at[i] < at[j]
  }

  /** The same within one section. */
  ghost predicate RecordsAt(pairs: seq<(bytes, Record)>, at: seq<nat>, records: seq<Record>) {
    Rising(at) && AllPairs(records, at) && PairsMatch(pairs, at, records)
  }

  lemma {:induction false} RecordsFound(records: seq<Record>) returns (at: seq<nat>)
    ensures RecordsAt(PairsOf(records), at, records)
  {
    if records == [] {
      at := [];
    } else {
      var rest := RecordsFound(records[1..]);
      var first := if IsPair(records, 0) then [0] else [];
      var pair := if IsPair(records, 0) then [PairIn(records, 0)] else [];
      assert PairsOf(records) == pair + PairsOf(records[1..]) && PairsMatch(pair, first, records);
      hide PairsOf, PairsMatch, AllPairs, IsPair, PairIn;
      at := first + Shifted(rest);
      ShiftMatch(records, PairsOf(records[1..]), rest);
      PairsJoin(records, pair, first, PairsOf(records[1..]), Shifted(rest));
      AllShifted(records, first, rest);
    }
  }

  function Shifted(at: seq<nat>): (later: seq<nat>)
    ensures |later| == |at| && forall i | 0 <= i < |at| :: later[i] == at[i] + 1
  {
    seq(|at|, i requires 0 <= i < |at| => at[i] + 1)
  }

  lemma ShiftMatch(records: seq<Record>, pairs: seq<(bytes, Record)>, rest: seq<nat>)
    requires records != [] && PairsMatch(pairs, rest, records[1..])
    ensures PairsMatch(pairs, Shifted(rest), records)
  {
    forall i | 0 <= i < |rest|
      ensures IsPair(records, Shifted(rest)[i]) && pairs[i] == PairIn(records, Shifted(rest)[i])
    {
      assert IsPair(records[1..], rest[i]);
    }
  }

  lemma PairsJoin(records: seq<Record>, a: seq<(bytes, Record)>, p: seq<nat>, b: seq<(bytes, Record)>, q: seq<nat>)
    requires PairsMatch(a, p, records) && PairsMatch(b, q, records)
    ensures PairsMatch(a + b, p + q, records)
  {
    hide IsPair, PairIn;
  }

  lemma AllShifted(records: seq<Record>, first: seq<nat>, rest: seq<nat>)
    requires records != [] && AllPairs(records[1..], rest) && first == if IsPair(records, 0) then [0] else []
    ensures AllPairs(records, first + Shifted(rest))
  {
    forall r: nat ensures IsPair(records, r) <==> r in first + Shifted(rest) {
      if r > 0 {
        assert IsPair(records, r) <==> IsPair(records[1..], r - 1);
        ShiftedIn(rest, Shifted(rest), r);
      } else {
        assert 0 !in Shifted(rest);
      }
    }
  }

  lemma ShiftedIn(rest: seq<nat>, later: seq<nat>, r: nat)
    requires |later| == |rest| && (forall i | 0 <= i < |later| :: later[i] == rest[i] + 1) && r > 0
    ensures r in later <==> r - 1 in rest
  {
    if r - 1 in rest {
      var i :| 0 <= i < |rest| && rest[i] == r - 1;
      assert later[i] == r;
    }
    if r in later {
      var i :| 0 <= i < |later| && later[i] == r;
      assert rest[i] == r - 1;
    }
  }

  lemma {:induction false} MetadataFound(sections: seq<Section>) returns (places: seq<Place>)
    ensures PairsAt(MetadataOf(sections), places, sections)
  {
    hide PairsOf;
    if sections == [] {
      places := [];
    } else {
      var rest := MetadataFound(sections[1..]);
      var at := RecordsFound(sections[0].records);
      var here := if sections[0].entry.kind == Metadata then Here(at) else [];
      places := here + Later(rest);
      JoinPlaces(sections, at, here, rest, places);
    }
  }

  function Here(at: seq<nat>): (p: seq<Place>)
    ensures |p| == |at| && forall i | 0 <= i < |p| :: p[i] == (0, at[i])
  {
    seq(|at|, i requires 0 <= i < |at| => (0, at[i]))
  }

  function Later(places: seq<Place>): (p: seq<Place>)
    ensures |p| == |places| && forall i | 0 <= i < |p| :: p[i] == (places[i].0 + 1, places[i].1)
  {
    seq(|places|, i requires 0 <= i < |places| => (places[i].0 + 1, places[i].1))
  }

  lemma JoinPlaces(sections: seq<Section>, at: seq<nat>, here: seq<Place>, rest: seq<Place>, places: seq<Place>)
    requires sections != [] && PairsAt(MetadataOf(sections[1..]), rest, sections[1..])
    requires RecordsAt(PairsOf(sections[0].records), at, sections[0].records)
    requires here == (if sections[0].entry.kind == Metadata then Here(at) else []) && places == here + Later(rest)
    ensures PairsAt(MetadataOf(sections), places, sections)
  {
    PlacesAscend(at, here, rest);
    WhichPlaces(sections, at, here, rest);
    PlacesMatch(sections, at, here, rest);
    hide Ascending, AllChosen, Matches, RecordsAt, MetadataOf, PairsOf;
  }

  lemma PlacesMatch(sections: seq<Section>, at: seq<nat>, here: seq<Place>, rest: seq<Place>)
    requires sections != [] && Matches(MetadataOf(sections[1..]), rest, sections[1..])
    requires RecordsAt(PairsOf(sections[0].records), at, sections[0].records)
    requires here == if sections[0].entry.kind == Metadata then Here(at) else []
    ensures Matches(MetadataOf(sections), here + Later(rest), sections)
  {
    var first := if sections[0].entry.kind == Metadata then PairsOf(sections[0].records) else [];
    assert MetadataOf(sections) == first + MetadataOf(sections[1..]);
    LaterMatch(sections, MetadataOf(sections[1..]), rest);
    if sections[0].entry.kind == Metadata {
      FirstMatch(sections, at);
    }
    hide Chosen, PairsOf, MetadataOf;
    MatchJoin(sections, first, here, MetadataOf(sections[1..]), Later(rest));
  }

  lemma FirstMatch(sections: seq<Section>, at: seq<nat>)
    requires sections != [] && RecordsAt(PairsOf(sections[0].records), at, sections[0].records)
    requires sections[0].entry.kind == Metadata
    ensures Matches(PairsOf(sections[0].records), Here(at), sections)
  {
    hide PairsOf;
  }

  lemma LaterMatch(sections: seq<Section>, pairs: seq<(bytes, Record)>, rest: seq<Place>)
    requires sections != [] && Matches(pairs, rest, sections[1..])
    ensures Matches(pairs, Later(rest), sections)
  {
    hide IsPair;
    forall i | 0 <= i < |rest|
      ensures Chosen(sections, Later(rest)[i]) && pairs[i] == PairAt(sections, Later(rest)[i])
    {
      LaterPair(sections, rest[i]);
    }
  }

  lemma MatchJoin(sections: seq<Section>, a: seq<(bytes, Record)>, p: seq<Place>, b: seq<(bytes, Record)>,
                  q: seq<Place>)
    requires Matches(a, p, sections) && Matches(b, q, sections)
    ensures Matches(a + b, p + q, sections)
  {
    hide Chosen, PairAt;
  }

  lemma PlacesAscend(at: seq<nat>, here: seq<Place>, rest: seq<Place>)
    requires Rising(at) && Ascending(rest) && (here == Here(at) || here == [])
    ensures Ascending(here + Later(rest))
  {
    var places := here + Later(rest);
    forall i, j | 0 <= i < j < |places| ensures Before(places[i], places[j]) {
      if i >= |here| {
        assert Before(rest[i - |here|], rest[j - |here|]);
      }
    }
  }

  lemma LaterPair(sections: seq<Section>, p: Place)
    requires sections != [] && Chosen(sections[1..], p)
    ensures Chosen(sections, (p.0 + 1, p.1)) && PairAt(sections, (p.0 + 1, p.1)) == PairAt(sections[1..], p)
  {
  }

  lemma WhichPlaces(sections: seq<Section>, at: seq<nat>, here: seq<Place>, rest: seq<Place>)
    requires sections != [] && AllChosen(sections[1..], rest)
    requires AllPairs(sections[0].records, at)
    requires here == if sections[0].entry.kind == Metadata then Here(at) else []
    ensures AllChosen(sections, here + Later(rest))
  {
    hide IsPair;
    forall p: Place ensures Chosen(sections, p) <==> p in here + Later(rest) {
      if p.0 == 0 {
        FirstPlace(at, p);
        assert p !in Later(rest);
      } else {
        LaterPlace(rest, p);
        assert p !in here;
        assert Chosen(sections, p) <==> Chosen(sections[1..], (p.0 - 1, p.1));
      }
    }
  }

  lemma FirstPlace(at: seq<nat>, p: Place)
    requires p.0 == 0
    ensures p in Here(at) <==> p.1 in at
  {
    if p.1 in at {
      var i :| 0 <= i < |at| && at[i] == p.1;
      assert Here(at)[i] == p;
    }
  }

  lemma LaterPlace(rest: seq<Place>, p: Place)
    requires p.0 > 0
    ensures p in Later(rest) <==> (p.0 - 1, p.1) in rest
  {
    if (p.0 - 1, p.1) in rest {
      var i :| 0 <= i < |rest| && rest[i] == (p.0 - 1, p.1);
      assert Later(rest)[i] == p;
    }
    if p in Later(rest) {
      var i :| 0 <= i < |rest| && Later(rest)[i] == p;
      assert rest[i] == (p.0 - 1, p.1);
    }
  }

  /** What any parse reports as metadata are the pairs of the sections it read. */
  lemma MetadataExactly(s: bytes, strict: bool, max: nat) returns (places: seq<Place>)
    requires Parse(s, strict, max).Ok?
    ensures PairsAt(Parse(s, strict, max).value.metadata, places, Parse(s, strict, max).value.sections)
  {
    hide ParseHeader, ParseTable, ParseSections, ParseTrailer, MetadataOf, AllBodiesOk, PairsAt;
    places := MetadataFound(Parse(s, strict, max).value.sections);
  }
}
