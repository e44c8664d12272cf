/**
  `is_self_citation`: two works are a self-citation when their author
  lists, turned into sets, intersect. Names are compared exactly.
 */
module SelfCitation {

  /** The distinct names of an author list (`set(authors)`). */
  function NameSet(authors: seq<string>): set<string> {
    set x | x in authors
  }

  /** `is_self_citation`: the two name sets intersect. */
  function IsSelfCitation(paperAuthors: seq<string>, citingAuthors: seq<string>): bool {
    NameSet(paperAuthors) * NameSet(citingAuthors) != {}
  }

  /** The two lists are a self-citation exactly when some name occurs in
      both of them. */
  lemma IsSelfCitationIffCommonName(paperAuthors: seq<string>, citingAuthors: seq<string>)
    ensures IsSelfCitation(paperAuthors, citingAuthors) <==> exists x :: x in paperAuthors && x in citingAuthors
  {
    var common := NameSet(paperAuthors) * NameSet(citingAuthors);
    if common != {} {
      var x :| x in common;
      assert x in paperAuthors && x in citingAuthors;
    } else {
      assert forall x :: x in paperAuthors && x in citingAuthors ==> x in common;
    }
  }

  /** Swapping the paper and the citing work gives the same verdict. */
  lemma IsSelfCitationSymmetric(a: seq<string>, b: seq<string>)
    ensures IsSelfCitation(a, b) == IsSelfCitation(b, a)
  {
  }

  /** Only which names occur matters, not their order or how often they
      are repeated. */
  lemma IsSelfCitationOnlyNamesMatter(a: seq<string>, a': seq<string>, b: seq<string>, b': seq<string>)
    requires NameSet(a) == NameSet(a') && NameSet(b) == NameSet(b')
    ensures IsSelfCitation(a, b) == IsSelfCitation(a', b')
  {
  }

  /** An empty list on either side never makes a self-citation. */
  lemma IsSelfCitationEmpty(a: seq<string>)
    ensures !IsSelfCitation(a, []) && !IsSelfCitation([], a)
  {
  }

  /** Any non-empty list is a self-citation of itself. */
  lemma IsSelfCitationReflexive(a: seq<string>)
    requires |a| > 0
    ensures IsSelfCitation(a, a)
  {
    assert a[0] in NameSet(a) * NameSet(a);
  }
}
