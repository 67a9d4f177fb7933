/**
 * The tree list: an append-only, insertion-ordered sequence of trees that
 * answers counting scans by species and borough and a search for the
 * species names that contain a query.
 */
module TreeCatalog {
  import opened IgnoreCase
  import opened TreeRecord

  // ---------------------------------------------------------------------
  // What the scans compute, stated over a sequence of trees.
  // ---------------------------------------------------------------------

  /** The number of trees whose species equals name, ignoring case. */
  function SpeciesCount(ts: seq<Tree>, name: string): (n: nat)
    ensures n <= |ts|
  {
    if ts == [] then 0
    else SpeciesCount(ts[..|ts| - 1], name) + (if EqualsIgnoreCase(ts[|ts| - 1].spc, name) then 1 else 0)
  }

  /** The number of trees whose borough equals name, ignoring case. */
  function BoroughCount(ts: seq<Tree>, name: string): (n: nat)
    ensures n <= |ts|
  {
    if ts == [] then 0
    else BoroughCount(ts[..|ts| - 1], name) + (if EqualsIgnoreCase(ts[|ts| - 1].boro, name) then 1 else 0)
  }

  /** The number of trees of species spc in borough boro, both ignoring case. */
  function SpeciesBoroughCount(ts: seq<Tree>, spc: string, boro: string): (n: nat)
    ensures n <= SpeciesCount(ts, spc) && n <= BoroughCount(ts, boro)
  {
    if ts == [] then 0
    else
      var t := ts[|ts| - 1];
      SpeciesBoroughCount(ts[..|ts| - 1], spc, boro)
        + (if EqualsIgnoreCase(t.boro, boro) && EqualsIgnoreCase(t.spc, spc) then 1 else 0)
  }

  /** A species matches a query when its upper-cased form contains the upper-cased query. */
  predicate MatchesQuery(spc: string, query: string) {
    Contains(Upper(spc), Upper(query))
  }

  predicate HasIgnoreCase(names: seq<string>, s: string) {
    exists k :: 0 <= k < |names| && EqualsIgnoreCase(names[k], s)
  }

  /**
   * The species names that contain the query, one per species ignoring
   * case, in the order and the casing in which they are first met.
   */
  function MatchingSpeciesNames(ts: seq<Tree>, query: string): seq<string> {
    if ts == [] then []
    else
      var names := MatchingSpeciesNames(ts[..|ts| - 1], query);
      var spc := ts[|ts| - 1].spc;
      if MatchesQuery(spc, query) && !HasIgnoreCase(names, spc) then names + [spc] else names
  }

  // ---------------------------------------------------------------------
  // Properties of the scans.
  // ---------------------------------------------------------------------

  /** Appending a tree raises each count by one exactly when the new tree matches. */
  lemma CountsAfterAppend(ts: seq<Tree>, t: Tree, spc: string, boro: string)
    ensures SpeciesCount(ts + [t], spc) == SpeciesCount(ts, spc) + (if EqualsIgnoreCase(t.spc, spc) then 1 else 0)
    ensures BoroughCount(ts + [t], boro) == BoroughCount(ts, boro) + (if EqualsIgnoreCase(t.boro, boro) then 1 else 0)
    ensures SpeciesBoroughCount(ts + [t], spc, boro) == SpeciesBoroughCount(ts, spc, boro)
      + (if EqualsIgnoreCase(t.spc, spc) && EqualsIgnoreCase(t.boro, boro) then 1 else 0)
  {
    assert (ts + [t])[..|ts|] == ts;
  }

  /** The tree is of species spc and in borough boro, both ignoring case. */
  predicate OfSpeciesInBorough(t: Tree, spc: string, boro: string) {
    EqualsIgnoreCase(t.spc, spc) && EqualsIgnoreCase(t.boro, boro)
  }

  /** Adding position n to a set of smaller positions when hit adds one to its size when hit. */
  lemma PositionsStep(before: set<int>, after: set<int>, n: int, hit: bool)
    requires forall i :: i in before ==> i < n
    requires forall i :: i in after <==> i in before || (hit && i == n)
    ensures |after| == |before| + (if hit then 1 else 0)
  {
    var expected := if hit then before + {n} else before;
    forall i
      ensures i in after <==> i in expected
    {
    }
    assert after == expected;
    assert n !in before;
  }

  /** The species count is the number of positions holding that species. */
  lemma {:induction false} SpeciesCountIsCardinality(ts: seq<Tree>, name: string)
    ensures SpeciesCount(ts, name) == |set i | 0 <= i < |ts| && EqualsIgnoreCase(ts[i].spc, name)|
  {
    if ts != [] {
      var n := |ts| - 1;
      var init := ts[..n];
      SpeciesCountIsCardinality(init, name);
      PositionsStep((set i | 0 <= i < n && EqualsIgnoreCase(init[i].spc, name)),
                    (set i | 0 <= i < |ts| && EqualsIgnoreCase(ts[i].spc, name)),
                    n, EqualsIgnoreCase(ts[n].spc, name));
    }
  }

  /** The borough count is the number of positions holding that borough. */
  lemma {:induction false} BoroughCountIsCardinality(ts: seq<Tree>, name: string)
    ensures BoroughCount(ts, name) == |set i | 0 <= i < |ts| && EqualsIgnoreCase(ts[i].boro, name)|
  {
    if ts != [] {
      var n := |ts| - 1;
      var init := ts[..n];
      BoroughCountIsCardinality(init, name);
      PositionsStep((set i | 0 <= i < n && EqualsIgnoreCase(init[i].boro, name)),
                    (set i | 0 <= i < |ts| && EqualsIgnoreCase(ts[i].boro, name)),
                    n, EqualsIgnoreCase(ts[n].boro, name));
    }
  }

  /** The species-and-borough count is the number of positions matching both. */
  lemma {:induction false} SpeciesBoroughCountIsCardinality(ts: seq<Tree>, spc: string, boro: string)
    ensures SpeciesBoroughCount(ts, spc, boro)
      == |set i | 0 <= i < |ts| && OfSpeciesInBorough(ts[i], spc, boro)|
  {
    if ts != [] {
      var n := |ts| - 1;
      var init := ts[..n];
      SpeciesBoroughCountIsCardinality(init, spc, boro);
      PositionsStep((set i | 0 <= i < n && OfSpeciesInBorough(init[i], spc, boro)),
                    (set i | 0 <= i < |ts| && OfSpeciesInBorough(ts[i], spc, boro)),
                    n, OfSpeciesInBorough(ts[n], spc, boro));
    }
  }

  /** 1 when the borough name equals the given canonical name ignoring case, else 0. */
  function InBorough(boro: string, canonical: string): nat {
    if EqualsIgnoreCase(boro, canonical) then 1 else 0
  }

  /** A borough accepted by the record equals exactly one of the five canonical names. */
  lemma ExactlyOneBorough(boro: string)
    requires IsBoroughName(boro)
    ensures InBorough(boro, "manhattan") + InBorough(boro, "bronx") + InBorough(boro, "brooklyn")
      + InBorough(boro, "queens") + InBorough(boro, "staten island") == 1
  {
    assert |Lower(boro)| == |boro|;
    assert |Lower("manhattan")| == 9 && |Lower("bronx")| == 5 && |Lower("brooklyn")| == 8;
    assert |Lower("queens")| == 6 && |Lower("staten island")| == 13;
  }

  /** Every tree lies in one of the five boroughs, so the five borough counts add up to the size. */
  lemma {:induction false} BoroughCountsPartition(ts: seq<Tree>)
    ensures BoroughCount(ts, "manhattan") + BoroughCount(ts, "bronx") + BoroughCount(ts, "brooklyn")
      + BoroughCount(ts, "queens") + BoroughCount(ts, "staten island") == |ts|
  {
    if ts != [] {
      BoroughCountsPartition(ts[..|ts| - 1]);
      ExactlyOneBorough(ts[|ts| - 1].boro);
    }
  }

  /** The per-borough counts of a species add up to the city-wide count of that species. */
  lemma {:induction false} SpeciesBoroughCountsPartition(ts: seq<Tree>, spc: string)
    ensures SpeciesBoroughCount(ts, spc, "manhattan") + SpeciesBoroughCount(ts, spc, "bronx")
      + SpeciesBoroughCount(ts, spc, "brooklyn") + SpeciesBoroughCount(ts, spc, "queens")
      + SpeciesBoroughCount(ts, spc, "staten island") == SpeciesCount(ts, spc)
  {
    if ts != [] {
      SpeciesBoroughCountsPartition(ts[..|ts| - 1], spc);
      ExactlyOneBorough(ts[|ts| - 1].boro);
    }
  }

  /** Every returned name is the species of some tree, and it contains the query. */
  lemma {:induction false} MatchingSpeciesSound(ts: seq<Tree>, query: string)
    ensures forall k :: 0 <= k < |MatchingSpeciesNames(ts, query)| ==>
      && MatchesQuery(MatchingSpeciesNames(ts, query)[k], query)
      && exists i :: 0 <= i < |ts| && ts[i].spc == MatchingSpeciesNames(ts, query)[k]
  {
    if ts != [] {
      var n := |ts| - 1;
      MatchingSpeciesSound(ts[..n], query);
      var names := MatchingSpeciesNames(ts[..n], query);
      forall k | 0 <= k < |names|
        ensures exists i :: 0 <= i < |ts| && ts[i].spc == names[k]
      {
        var i :| 0 <= i < n && ts[..n][i].spc == names[k];
        assert ts[i].spc == names[k];
      }
    }
  }

  /** No two returned names are equal ignoring case. */
  lemma {:induction false} MatchingSpeciesDistinct(ts: seq<Tree>, query: string)
    ensures forall j, k :: 0 <= j < k < |MatchingSpeciesNames(ts, query)| ==>
      !EqualsIgnoreCase(MatchingSpeciesNames(ts, query)[j], MatchingSpeciesNames(ts, query)[k])
  {
    if ts != [] {
      MatchingSpeciesDistinct(ts[..|ts| - 1], query);
    }
  }

  /** The species of every matching tree is among the returned names, ignoring case. */
  lemma {:induction false} MatchingSpeciesComplete(ts: seq<Tree>, query: string)
    ensures forall i :: 0 <= i < |ts| && MatchesQuery(ts[i].spc, query) ==>
      HasIgnoreCase(MatchingSpeciesNames(ts, query), ts[i].spc)
  {
    if ts != [] {
      var n := |ts| - 1;
      MatchingSpeciesComplete(ts[..n], query);
      var names := MatchingSpeciesNames(ts[..n], query);
      var result := MatchingSpeciesNames(ts, query);
      assert names <= result;
      forall i | 0 <= i < |ts| && MatchesQuery(ts[i].spc, query)
        ensures HasIgnoreCase(result, ts[i].spc)
      {
        if i < n {
          assert ts[..n][i] == ts[i];
          var k :| 0 <= k < |names| && EqualsIgnoreCase(names[k], ts[i].spc);
          assert result[k] == names[k];
        } else if !HasIgnoreCase(names, ts[i].spc) {
          assert result[|names|] == ts[i].spc;
        }
      }
    }
  }

  /** The search finds nothing exactly when no tree's species contains the query. */
  lemma MatchingSpeciesEmptyIff(ts: seq<Tree>, query: string)
    ensures MatchingSpeciesNames(ts, query) == [] <==>
      forall i :: 0 <= i < |ts| ==> !MatchesQuery(ts[i].spc, query)
  {
    MatchingSpeciesSound(ts, query);
    MatchingSpeciesComplete(ts, query);
  }

  /** Red Oak and red oak contain "oak", ignoring case. */
  lemma RedOakMatches()
    ensures MatchesQuery("Red Oak", "oak") && MatchesQuery("red oak", "oak")
  {
    assert Upper("oak") == "OAK";
    assert Upper("Red Oak") == "RED OAK";
    assert Upper("red oak") == "RED OAK";
    ContainsAt("RED OAK", "OAK", 4);
  }

  /** White Oak contains "oak", ignoring case. */
  lemma WhiteOakMatches()
    ensures MatchesQuery("White Oak", "oak")
  {
    assert Upper("oak") == "OAK";
    assert Upper("White Oak") == "WHITE OAK";
    ContainsAt("WHITE OAK", "OAK", 6);
  }

  /** Maple does not contain "oak", ignoring case: it has no O. */
  lemma MapleDoesNotMatch()
    ensures !MatchesQuery("Maple", "oak")
  {
    assert Upper("oak") == "OAK";
    assert Upper("Maple") == "MAPLE";
    ContainsIff("MAPLE", "OAK");
    forall i | 0 <= i <= 5
      ensures !("OAK" <= "MAPLE"[i..])
    {
      if i <= 2 {
        assert "MAPLE"[i..][0] == "MAPLE"[i];
      }
    }
  }

  /**
   * For instance, the query "oak" over Red Oak, White Oak, red oak and Maple
   * finds Red Oak and White Oak, in that order and casing.
   */
  lemma OakQueryExample(ts: seq<Tree>)
    requires |ts| == 4
    requires ts[0].spc == "Red Oak" && ts[1].spc == "White Oak"
    requires ts[2].spc == "red oak" && ts[3].spc == "Maple"
    ensures MatchingSpeciesNames(ts, "oak") == ["Red Oak", "White Oak"]
  {
    RedOakMatches();
    WhiteOakMatches();
    MapleDoesNotMatch();
    OakNames();
    var p1, p2, p3 := ts[..1], ts[..2], ts[..3];
    assert p1[..0] == [];
    assert MatchingSpeciesNames(p1, "oak") == ["Red Oak"];
    assert p2[..1] == p1;
    assert MatchingSpeciesNames(p2, "oak") == ["Red Oak", "White Oak"];
    assert p3[..2] == p2;
    assert MatchingSpeciesNames(p3, "oak") == ["Red Oak", "White Oak"];
    assert ts[..3] == p3;
  }

  /** The case-insensitive duplicate checks met by the example. */
  lemma OakNames()
    ensures !HasIgnoreCase([], "Red Oak")
    ensures !HasIgnoreCase(["Red Oak"], "White Oak")
    ensures HasIgnoreCase(["Red Oak", "White Oak"], "red oak")
  {
    assert |Lower("White Oak")| == 9 && |Lower("Red Oak")| == 7;
    assert EqualsIgnoreCase(["Red Oak", "White Oak"][0], "red oak");
  }

  /** Tree i matches the query and no earlier tree has its species, ignoring case. */
  ghost predicate FirstSeen(ts: seq<Tree>, query: string, i: int)
    requires 0 <= i < |ts|
  {
    && MatchesQuery(ts[i].spc, query)
    && forall j :: 0 <= j < i ==> !EqualsIgnoreCase(ts[j].spc, ts[i].spc)
  }

  /** The species of the trees among the first n that are first seen, in position order. */
  ghost function FirstSeenSpecies(ts: seq<Tree>, query: string, n: nat): seq<string>
    requires n <= |ts|
  {
    if n == 0 then []
    else FirstSeenSpecies(ts, query, n - 1) + (if FirstSeen(ts, query, n - 1) then [ts[n - 1].spc] else [])
  }

  /**
   * The search returns, in position order, the species of exactly those
   * trees that match and whose species no earlier tree had: first-seen
   * order and first-seen casing.
   */
  lemma {:induction false} MatchingSpeciesFirstSeen(ts: seq<Tree>, query: string, n: nat)
    requires n <= |ts|
    ensures MatchingSpeciesNames(ts[..n], query) == FirstSeenSpecies(ts, query, n)
  {
    if n > 0 {
      var m := n - 1;
      MatchingSpeciesFirstSeen(ts, query, m);
      assert ts[..n][..m] == ts[..m];
      if MatchesQuery(ts[m].spc, query) {
        SeenBeforeIff(ts, query, m);
      }
    }
  }

  /** A matching tree's species is already among the names found before it exactly when it is not first seen. */
  lemma SeenBeforeIff(ts: seq<Tree>, query: string, m: nat)
    requires m < |ts| && MatchesQuery(ts[m].spc, query)
    ensures HasIgnoreCase(MatchingSpeciesNames(ts[..m], query), ts[m].spc) <==> !FirstSeen(ts, query, m)
  {
    var names := MatchingSpeciesNames(ts[..m], query);
    var spc := ts[m].spc;
    if HasIgnoreCase(names, spc) {
      MatchingSpeciesSound(ts[..m], query);
      var k :| 0 <= k < |names| && EqualsIgnoreCase(names[k], spc);
      var j :| 0 <= j < m && ts[..m][j].spc == names[k];
      assert ts[j].spc == names[k];
    }
    if !FirstSeen(ts, query, m) {
      var j :| 0 <= j < m && EqualsIgnoreCase(ts[j].spc, spc);
      MatchingSpeciesComplete(ts[..m], query);
      EqualsIgnoreCaseSameUpper(ts[j].spc, spc);
      assert ts[..m][j] == ts[j];
      var k :| 0 <= k < |names| && EqualsIgnoreCase(names[k], ts[j].spc);
      assert EqualsIgnoreCase(names[k], spc);
    }
  }

  // ---------------------------------------------------------------------
  // The list itself.
  // ---------------------------------------------------------------------

  class TreeList {
    var trees: seq<Tree>

    /** An empty list. */
    constructor ()
      ensures trees == []
    {
      trees := [];
    }

    /** ArrayList.add: the tree goes at the end and the earlier trees are unchanged. */
    method Add(t: Tree)
      modifies this
      ensures trees == old(trees) + [t]
      ensures GetTotalNumberOfTrees() == old(GetTotalNumberOfTrees()) + 1
      ensures forall i :: 0 <= i < old(|trees|) ==> trees[i] == old(trees[i])
    {
      trees := trees + [t];
    }

    function GetTotalNumberOfTrees(): (n: nat)
      reads this
      ensures n == |trees|
    {
      |trees|
    }

    /** Counts the trees whose species equals speciesName, ignoring case. */
    method GetCountByTreeSpecies(speciesName: string) returns (count: nat)
      ensures count == SpeciesCount(trees, speciesName)
    {
      count := 0;
      for i := 0 to |trees|
        invariant count == SpeciesCount(trees[..i], speciesName)
      {
        assert trees[..i + 1][..i] == trees[..i];
        CompareIgnoreCaseZero(trees[i].spc, speciesName);
        if CompareIgnoreCase(trees[i].spc, speciesName) == 0 {
          count := count + 1;
        }
      }
      assert trees[..|trees|] == trees;
    }

    /** Counts the trees whose borough equals boroName, ignoring case. */
    method GetCountByBorough(boroName: string) returns (count: nat)
      ensures count == BoroughCount(trees, boroName)
    {
      count := 0;
      for i := 0 to |trees|
        invariant count == BoroughCount(trees[..i], boroName)
      {
        assert trees[..i + 1][..i] == trees[..i];
        CompareIgnoreCaseZero(trees[i].boro, boroName);
        if CompareIgnoreCase(trees[i].boro, boroName) == 0 {
          count := count + 1;
        }
      }
      assert trees[..|trees|] == trees;
    }

    /** Counts the trees of species speciesName in borough boroName, both ignoring case. */
    method GetCountByTreeSpeciesBorough(speciesName: string, boroName: string) returns (count: nat)
      ensures count == SpeciesBoroughCount(trees, speciesName, boroName)
    {
      count := 0;
      for i := 0 to |trees|
        invariant count == SpeciesBoroughCount(trees[..i], speciesName, boroName)
      {
        assert trees[..i + 1][..i] == trees[..i];
        CompareIgnoreCaseZero(trees[i].boro, boroName);
        CompareIgnoreCaseZero(trees[i].spc, speciesName);
        if CompareIgnoreCase(trees[i].boro, boroName) == 0 {
          if CompareIgnoreCase(trees[i].spc, speciesName) == 0 {
            count := count + 1;
          }
        }
      }
      assert trees[..|trees|] == trees;
    }

    /**
     * The distinct species names containing speciesName, ignoring case, in
     * first-seen order and casing. The outer loop scans the trees; the
     * inner loop looks for the species among the names found so far and
     * appends it after the last one when it is not there.
     */
    method GetMatchingSpecies(speciesName: string) returns (speciestreeslist: seq<string>)
      ensures speciestreeslist == MatchingSpeciesNames(trees, speciesName)
    {
      speciestreeslist := [];
      var count := 0;
      for i := 0 to |trees|
        invariant speciestreeslist == MatchingSpeciesNames(trees[..i], speciesName)
        invariant count == 0 <==> speciestreeslist == []
      {
        assert trees[..i + 1][..i] == trees[..i];
        var spc := trees[i].spc;
        if Contains(Upper(spc), Upper(speciesName)) {
          ghost var before := speciestreeslist;
          if count == 0 {
            speciestreeslist := speciestreeslist + [spc];
            count := count + 1;
          }
          var a := 0;
          while a < |speciestreeslist|
            invariant 0 <= a <= |speciestreeslist|
            invariant speciestreeslist == before || speciestreeslist == before + [spc]
            invariant speciestreeslist == before ==>
              a < |speciestreeslist| && forall k :: 0 <= k < a ==> !EqualsIgnoreCase(before[k], spc)
            invariant speciestreeslist == before + [spc] ==>
              a == |before| && forall k :: 0 <= k < |before| ==> !EqualsIgnoreCase(before[k], spc)
            decreases |before| + 1 - a
          {
            CompareIgnoreCaseZero(speciestreeslist[a], spc);
            if CompareIgnoreCase(speciestreeslist[a], spc) == 0 {
              break;
            } else if a + 1 == |speciestreeslist| {
              speciestreeslist := speciestreeslist + [spc];
            }
            a := a + 1;
          }
        }
      }
      assert trees[..|trees|] == trees;
    }
  }
}
