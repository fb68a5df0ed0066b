/** The ontology queries of gui/utils.py (lines 21-108). Each helper builds one
    SPARQL query and returns its result rows; here the ontology is an oracle
    value with one function per query, and the rows keep the columns the
    queries select. */
module Ontology {
  import opened Wrappers

  type Uri = string

  /** The IRI of the lung ontology, up to its `#`. It is written as short
      pieces because the verifier sees that each piece is free of `#`, which
      it does not see for the whole literal. */
  const Base: string :=
    "http://www.semanticweb.org" + "/am175" + "/ontologies" + "/2017" + "/1" + "/untitled-ontology-79"

  /** The default prefix `:` of every query. */
  const Namespace: string := Base + "#"

  /** The two relation names the structure query admits (line 85). */
  const HasPart: string := "has_part"
  const SurroundedBy: string := "surrounded_by"

  /** The full IRI of a term of the ontology, as `:name` denotes it. */
  function Term(name: string): Uri
  {
    Namespace + name
  }

  /** A row of the protein query (lines 26-30): the protein and its synonym. */
  datatype ProteinRow = ProteinRow(uri: Uri, synonym: string)

  /** A row of the structure query (lines 79-86): the structure, its preferred
      label and the relation through which it is related. */
  datatype StructureRow = StructureRow(uri: Uri, preferred: string, relation: Uri)

  /** A row of the subclass query (lines 99-103): the subclass and its
      preferred label. */
  datatype SubClassRow = SubClassRow(uri: Uri, preferred: string)

  /** The five query helpers, as functions from their parameter to their rows. */
  datatype Oracle = Oracle(
    proteinsBySynonym: string -> seq<ProteinRow>,   // get_onto_protein_uri
    cellsByProtein: Uri -> seq<Uri>,                // get_onto_cells_by_protein
    tissuesByCell: Uri -> seq<Uri>,                 // get_onto_tissues_by_cell
    structuresByRelated: Uri -> seq<StructureRow>,  // get_onto_structures_by_related_uri
    subClasses: Uri -> seq<SubClassRow>)            // get_onto_sub_classes
  {
    /** What the structure query guarantees: its VALUES clause admits only the
        relations :has_part and :surrounded_by. */
    ghost predicate Valid()
    {
      forall u, row :: row in structuresByRelated(u) ==>
        row.relation == Term(HasPart) || row.relation == Term(SurroundedBy)
    }
  }

  /** The text from the start of `s` up to, not including, its first `#`. */
  function UpToHash(s: string): (r: string)
    ensures '#' !in r && r <= s
    ensures |r| == |s| || s[|r|] == '#'
    decreases |s|
  {
    if s == [] || s[0] == '#' then [] else [s[0]] + UpToHash(s[1..])
  }

  /** `uri.split('#')[1]`: the text between the first `#` and the next one (or
      the end); None when there is no `#`, where the split has no second part. */
  function Fragment(uri: string): (r: Option<string>)
    ensures r.None? <==> '#' !in uri
    ensures r.Some? ==> '#' !in r.value
    decreases |uri|
  {
    if uri == [] then None
    else if uri[0] == '#' then Some(UpToHash(uri[1..]))
    else
      assert uri == [uri[0]] + uri[1..];
      Fragment(uri[1..])
  }

  /** Text before the first `#` does not change the fragment. */
  lemma {:induction false} FragmentSkipsPrefix(a: string, b: string)
    requires '#' !in a
    ensures Fragment(a + b) == Fragment(b)
    decreases |a|
  {
    if a != [] {
      assert (a + b)[0] == a[0] && (a + b)[1..] == a[1..] + b;
      FragmentSkipsPrefix(a[1..], b);
    } else {
      assert a + b == b;
    }
  }

  /** Splitting at the first `#`: whatever precedes it, the fragment is the
      text after it up to the next `#`. */
  lemma FragmentSplit(a: string, b: string)
    requires '#' !in a
    ensures Fragment(a + "#" + b) == Some(UpToHash(b))
  {
    assert a + "#" + b == a + ("#" + b);
    FragmentSkipsPrefix(a, "#" + b);
    assert ("#" + b)[1..] == b;
  }

  lemma NoHashInBase()
    ensures '#' !in Base
  {
  }

  /** A text without `#` is kept whole. */
  lemma {:induction false} UpToHashWhole(s: string)
    requires '#' !in s
    ensures UpToHash(s) == s
    decreases |s|
  {
    if s != [] {
      assert s[0] in s && s == [s[0]] + s[1..];
      UpToHashWhole(s[1..]);
    }
  }

  /** The fragment of `:name` is `name`. */
  lemma FragmentOfTerm(name: string)
    requires '#' !in name
    ensures Fragment(Term(name)) == Some(name)
  {
    NoHashInBase();
    FragmentSplit(Base, name);
    assert Term(name) == Base + "#" + name;
    UpToHashWhole(name);
  }

  /** Under the oracle's guarantee every structure row names one of the two
      relations after its `#`, and the name tells the relations apart. */
  lemma RelationFragment(o: Oracle, u: Uri, st: StructureRow)
    requires o.Valid() && st in o.structuresByRelated(u)
    ensures Fragment(st.relation) == Some(HasPart) || Fragment(st.relation) == Some(SurroundedBy)
    ensures Fragment(st.relation) == Some(HasPart) <==> st.relation == Term(HasPart)
    ensures Fragment(st.relation) == Some(SurroundedBy) <==> st.relation == Term(SurroundedBy)
  {
    FragmentOfTerm(HasPart);
    FragmentOfTerm(SurroundedBy);
  }
}
