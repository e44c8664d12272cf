/**
  The per-paper tally of `analyze_citations`: the paper's author string is
  split once, every citing work is classified as a self-citation or not,
  and exactly one of two counters, both starting at zero, goes up by one.
 */
module CitationTally {
  import opened AuthorSplit
  import opened SelfCitation

  datatype Option<T> = None | Some(value: T)

  /** One entry of a citations page: its title and raw author string. */
  datatype Citation = Citation(title: string, authors: string)

  /** The record kept for one paper. */
  datatype PaperStats = PaperStats(totalCitations: int, nonSelfCitations: nat, selfCitations: nat)

  /** The citing work shares a name with the paper once its author string
      is split the same way. */
  predicate CitesSelf(paperAuthors: seq<string>, c: Citation) {
    IsSelfCitation(paperAuthors, GetAuthorNames(c.authors))
  }

  /** One turn of the loop over citing works. */
  function Classify(stats: PaperStats, paperAuthors: seq<string>, c: Citation): (r: PaperStats)
    ensures r.totalCitations == stats.totalCitations
    ensures r.selfCitations + r.nonSelfCitations == stats.selfCitations + stats.nonSelfCitations + 1
    ensures r.selfCitations == stats.selfCitations + 1 <==> CitesSelf(paperAuthors, c)
    ensures r.nonSelfCitations == stats.nonSelfCitations + 1 <==> !CitesSelf(paperAuthors, c)
  {
    if CitesSelf(paperAuthors, c) then
      stats.(selfCitations := stats.selfCitations + 1)
    else
      stats.(nonSelfCitations := stats.nonSelfCitations + 1)
  }

  /** The record after the loop has seen every work of `citations`, in
      order, starting from zero counters. */
  function Tally(total: int, paperAuthors: seq<string>, citations: seq<Citation>): (r: PaperStats)
    ensures r.totalCitations == total
    ensures r.selfCitations + r.nonSelfCitations == |citations|
    decreases |citations|
  {
    if citations == [] then
      PaperStats(total, 0, 0)
    else
      Classify(Tally(total, paperAuthors, citations[..|citations| - 1]), paperAuthors, citations[|citations| - 1])
  }

  /** Reference definition: the citing works that share an author with the
      paper, in order. */
  function SelfCiting(paperAuthors: seq<string>, citations: seq<Citation>): (r: seq<Citation>)
    ensures |r| <= |citations|
  {
    if citations == [] then
      []
    else
      var head := if CitesSelf(paperAuthors, citations[0]) then [citations[0]] else [];
      head + SelfCiting(paperAuthors, citations[1..])
  }

  /** The reference list holds exactly the citing works that share an
      author with the paper. */
  lemma {:induction false} SelfCitingMembers(paperAuthors: seq<string>, citations: seq<Citation>)
    ensures forall c :: c in SelfCiting(paperAuthors, citations) <==> c in citations && CitesSelf(paperAuthors, c)
    decreases |citations|
  {
    if citations != [] {
      SelfCitingMembers(paperAuthors, citations[1..]);
      assert forall c :: c in citations <==> c == citations[0] || c in citations[1..];
    }
  }

  lemma {:induction false} SelfCitingAppend(paperAuthors: seq<string>, citations: seq<Citation>, c: Citation)
    ensures SelfCiting(paperAuthors, citations + [c])
         == SelfCiting(paperAuthors, citations) + (if CitesSelf(paperAuthors, c) then [c] else [])
    decreases |citations|
  {
    var last := if CitesSelf(paperAuthors, c) then [c] else [];
    if citations == [] {
      assert [] + [c] == [c];
      assert SelfCiting(paperAuthors, [c]) == last + SelfCiting(paperAuthors, []);
    } else {
      var cs := citations + [c];
      var head := if CitesSelf(paperAuthors, citations[0]) then [citations[0]] else [];
      assert cs[0] == citations[0];
      assert cs[1..] == citations[1..] + [c];
      SelfCitingAppend(paperAuthors, citations[1..], c);
      assert SelfCiting(paperAuthors, cs) == head + SelfCiting(paperAuthors, cs[1..]);
      assert SelfCiting(paperAuthors, citations) == head + SelfCiting(paperAuthors, citations[1..]);
      assert head + (SelfCiting(paperAuthors, citations[1..]) + last)
          == (head + SelfCiting(paperAuthors, citations[1..])) + last;
    }
  }

  /** The self counter is the number of citing works sharing an author with
      the paper; the other counter holds the rest. */
  lemma {:induction false} TallyCountsSelfCiting(total: int, paperAuthors: seq<string>, citations: seq<Citation>)
    ensures Tally(total, paperAuthors, citations).selfCitations == |SelfCiting(paperAuthors, citations)|
    ensures Tally(total, paperAuthors, citations).nonSelfCitations
         == |citations| - |SelfCiting(paperAuthors, citations)|
    decreases |citations|
  {
    if citations != [] {
      var init := citations[..|citations| - 1];
      var last := citations[|citations| - 1];
      assert citations == init + [last];
      TallyCountsSelfCiting(total, paperAuthors, init);
      SelfCitingAppend(paperAuthors, init, last);
    }
  }

  /** Counting two runs of citing works back to back adds their counts. */
  lemma {:induction false} TallyConcat(total: int, paperAuthors: seq<string>, xs: seq<Citation>, ys: seq<Citation>)
    ensures Tally(total, paperAuthors, xs + ys).selfCitations
         == Tally(total, paperAuthors, xs).selfCitations + Tally(total, paperAuthors, ys).selfCitations
    ensures Tally(total, paperAuthors, xs + ys).nonSelfCitations
         == Tally(total, paperAuthors, xs).nonSelfCitations + Tally(total, paperAuthors, ys).nonSelfCitations
    decreases |ys|
  {
    if ys == [] {
      assert xs + ys == xs;
    } else {
      var init := ys[..|ys| - 1];
      assert (xs + ys)[..|xs + ys| - 1] == xs + init;
      assert (xs + ys)[|xs + ys| - 1] == ys[|ys| - 1];
      TallyConcat(total, paperAuthors, xs, init);
    }
  }

  /** The counts do not depend on the order in which two runs of citing
      works arrive. */
  lemma TallySwap(total: int, paperAuthors: seq<string>, xs: seq<Citation>, ys: seq<Citation>)
    ensures Tally(total, paperAuthors, xs + ys) == Tally(total, paperAuthors, ys + xs)
  {
    TallyConcat(total, paperAuthors, xs, ys);
    TallyConcat(total, paperAuthors, ys, xs);
  }

  /** The citation count reported for the paper, 0 when it has none. */
  function TotalCitations(numCitations: Option<int>): int {
    match numCitations
    case Some(n) => n
    case None => 0
  }

  /** The record `analyze_citations` builds for one paper: the paper's
      authors are split once, the counters start at zero, and when the paper
      reports citations every fetched citing work is classified in turn. */
  method AnalyzePaper(paperAuthorString: string, numCitations: Option<int>, citations: seq<Citation>)
    returns (stats: PaperStats)
    ensures stats.totalCitations == TotalCitations(numCitations)
    ensures stats.totalCitations <= 0 ==> stats.selfCitations == 0 && stats.nonSelfCitations == 0
    ensures stats.totalCitations > 0 ==>
      && stats.selfCitations + stats.nonSelfCitations == |citations|
      && stats.selfCitations == |SelfCiting(GetAuthorNames(paperAuthorString), citations)|
      && stats == Tally(stats.totalCitations, GetAuthorNames(paperAuthorString), citations)
  {
    var paperAuthors := GetAuthorNames(paperAuthorString);
    var total := TotalCitations(numCitations);
    stats := PaperStats(total, 0, 0);
    if total > 0 {
      for i := 0 to |citations|
        invariant stats == Tally(total, paperAuthors, citations[..i])
      {
        assert citations[..i + 1][..i] == citations[..i];
        var citingAuthors := GetAuthorNames(citations[i].authors);
        if IsSelfCitation(paperAuthors, citingAuthors) {
          stats := stats.(selfCitations := stats.selfCitations + 1);
        } else {
          stats := stats.(nonSelfCitations := stats.nonSelfCitations + 1);
        }
      }
      assert citations[..|citations|] == citations;
      TallyCountsSelfCiting(total, paperAuthors, citations);
    }
  }

  /** Empty pieces are kept, so two author strings that each hold a comma
      followed only by whitespace before the next separator or the end
      (`"A,"`, `"A, and B"`) share the empty name and count as a
      self-citation even when no real name is common. */
  lemma BlankNamesShareEmptyName(paperAuthorString: string, p: nat, j: nat,
                                 citingAuthorString: string, q: nat, m: nat)
    requires BlankAfterComma(paperAuthorString, p, j)
    requires BlankAfterComma(citingAuthorString, q, m)
    ensures IsSelfCitation(GetAuthorNames(paperAuthorString), GetAuthorNames(citingAuthorString))
  {
    EmptyNameAfterComma(paperAuthorString, p, j);
    EmptyNameAfterComma(citingAuthorString, q, m);
    IsSelfCitationIffCommonName(GetAuthorNames(paperAuthorString), GetAuthorNames(citingAuthorString));
  }
}
