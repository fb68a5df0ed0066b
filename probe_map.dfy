/** The probe-to-structure map of gui/utils.py, `get_probe_structure_map`
    (lines 111-180). Each probe label, with every `Anti-` removed, is looked up
    as a protein synonym; labels without a match are skipped. For a matched
    probe, the cells that have the protein as a part, and one level of their
    subclasses, are examined. So are the tissues having those cells as a part,
    and one level of their subclasses. Every complex structure related to such a
    cell or tissue contributes its preferred label, and the preferred labels of
    its direct subclasses, to the set named by its relation (`has_part` or
    `surrounded_by`). */
module ProbeMap {
  import opened Wrappers
  import opened Collections
  import opened Ontology

  /** The prefix the lookup strips from a probe label. */
  const AntiPrefix: string := "Anti-"

  /** `label.replace('Anti-', '')`: one left-to-right pass that drops every
      non-overlapping occurrence of `Anti-`. */
  function StripAnti(s: string): (r: string)
    ensures |r| <= |s|
    decreases |s|
  {
    if |s| >= |AntiPrefix| && s[..|AntiPrefix|] == AntiPrefix then StripAnti(s[|AntiPrefix|..])
    else if s == [] then []
    else [s[0]] + StripAnti(s[1..])
  }

  /** `Anti-` occurs in `s` starting at index i. */
  predicate AntiAt(s: string, i: int)
  {
    0 <= i && i + |AntiPrefix| <= |s| && s[i..i + |AntiPrefix|] == AntiPrefix
  }

  /** A label without `Anti-` is looked up unchanged. */
  lemma {:induction false} StripAntiKeepsPlainLabel(s: string)
    requires forall i :: !AntiAt(s, i)
    ensures StripAnti(s) == s
    decreases |s|
  {
    if s != [] {
      assert !AntiAt(s, 0);
      forall i
        ensures !AntiAt(s[1..], i)
      {
        if 0 <= i && i + |AntiPrefix| <= |s[1..]| {
          assert s[1..][i..i + |AntiPrefix|] == s[i + 1..i + 1 + |AntiPrefix|];
          assert !AntiAt(s, i + 1);
        }
      }
      StripAntiKeepsPlainLabel(s[1..]);
      assert s == [s[0]] + s[1..];
    }
  }

  /** A leading `Anti-` is dropped before the rest is scanned. */
  lemma StripAntiDropsPrefix(s: string)
    ensures StripAnti(AntiPrefix + s) == StripAnti(s)
  {
    assert (AntiPrefix + s)[..|AntiPrefix|] == AntiPrefix;
    assert (AntiPrefix + s)[|AntiPrefix|..] == s;
  }

  /** Where no `Anti-` starts, the first character is kept. */
  lemma StripAntiKeepsHead(s: string)
    requires s != [] && !AntiAt(s, 0)
    ensures StripAnti(s) == [s[0]] + StripAnti(s[1..])
  {
  }

  lemma AntiAtTail(s: string, i: nat)
    requires s != []
    ensures AntiAt(s[1..], i) <==> AntiAt(s, i + 1)
  {
    if i + |AntiPrefix| <= |s[1..]| {
      assert s[1..][i..i + |AntiPrefix|] == s[i + 1..i + 1 + |AntiPrefix|];
    }
  }

  /** An `Anti-` further in is dropped too, once no earlier one starts in
      the text before it; that text is kept. */
  lemma {:induction false} StripAntiSkipsPlainPrefix(a: string, b: string)
    requires forall i :: 0 <= i < |a| ==> !AntiAt(a + AntiPrefix + b, i)
    ensures StripAnti(a + AntiPrefix + b) == a + StripAnti(b)
    decreases |a|
  {
    if a == [] {
      assert a + AntiPrefix + b == AntiPrefix + b;
      StripAntiDropsPrefix(b);
    } else {
      var s, t := a + AntiPrefix + b, a[1..] + AntiPrefix + b;
      assert s[1..] == t;
      StripAntiKeepsHead(s);
      forall i | 0 <= i < |a[1..]|
        ensures !AntiAt(t, i)
      {
        AntiAtTail(s, i);
      }
      StripAntiSkipsPlainPrefix(a[1..], b);
      assert a == [a[0]] + a[1..];
    }
  }

  lemma NoAntiInAnt()
    ensures forall i :: 0 <= i < 3 ==> !AntiAt("AntAnti-i-", i)
  {
    var s := "AntAnti-i-";
    assert !AntiAt(s, 0) by { assert s[0..5][3] != AntiPrefix[3]; }
    assert !AntiAt(s, 1) by { assert s[1..6][0] != AntiPrefix[0]; }
    assert !AntiAt(s, 2) by { assert s[2..7][0] != AntiPrefix[0]; }
  }

  /** The replacement is a single pass: an `Anti-` that only forms once an
      inner one is removed stays in the lookup key. */
  lemma StripAntiSinglePass()
    ensures StripAnti("AntAnti-i-") == "Anti-"
  {
    var a, b := "Ant", "i-";
    assert a + AntiPrefix + b == "AntAnti-i-";
    NoAntiInAnt();
    StripAntiSkipsPlainPrefix(a, b);
    assert StripAnti(b) == b by {
      StripAntiKeepsHead(b);
      StripAntiKeepsHead(b[1..]);
    }
  }

  /** The protein rows found for a probe label. */
  function Proteins(o: Oracle, probe: string): seq<ProteinRow>
  {
    o.proteinsBySynonym(StripAnti(probe))
  }

  /** The protein a matched probe stands for: the first row's protein. */
  function ProbeUri(o: Oracle, probe: string): (uri: Uri)
    requires Proteins(o, probe) != []
    ensures exists row :: row in o.proteinsBySynonym(StripAnti(probe)) && row.uri == uri
  {
    Proteins(o, probe)[0].uri
  }

  /** A probe label and its `Anti-` form find the same proteins, and so stand
      for the same protein, while each keeps its own key. */
  lemma AntiLabelSameProtein(o: Oracle, probe: string)
    ensures Proteins(o, AntiPrefix + probe) == Proteins(o, probe)
    ensures Proteins(o, probe) != [] ==> ProbeUri(o, AntiPrefix + probe) == ProbeUri(o, probe)
  {
    StripAntiDropsPrefix(probe);
  }

  /** The subclass IRIs of a list of classes, class by class. */
  function SubClassUris(o: Oracle, ds: seq<Uri>): (r: seq<Uri>)
    decreases |ds|
  {
    if ds == [] then []
    else
      var rows := o.subClasses(ds[|ds| - 1]);
      SubClassUris(o, ds[..|ds| - 1]) + seq(|rows|, k requires 0 <= k < |rows| => rows[k].uri)
  }

  /** Lines 129-134 and 156-161: the classes themselves, then their subclasses. */
  function OneLevel(o: Oracle, ds: seq<Uri>): seq<Uri>
  {
    ds + SubClassUris(o, ds)
  }

  /** A class is examined exactly when it is one of the classes or a direct
      subclass of one of them. */
  lemma {:induction false} OneLevelMembers(o: Oracle, ds: seq<Uri>, u: Uri)
    ensures u in OneLevel(o, ds) <==>
      u in ds || exists d, r :: d in ds && r in o.subClasses(d) && r.uri == u
  {
    SubClassUrisMembers(o, ds, u);
  }

  lemma {:induction false} SubClassUrisMembers(o: Oracle, ds: seq<Uri>, u: Uri)
    ensures u in SubClassUris(o, ds) <==> exists d, r :: d in ds && r in o.subClasses(d) && r.uri == u
    decreases |ds|
  {
    if ds != [] {
      var init, last := ds[..|ds| - 1], ds[|ds| - 1];
      var rows := o.subClasses(last);
      var uris := seq(|rows|, k requires 0 <= k < |rows| => rows[k].uri);
      SubClassUrisMembers(o, init, u);
      assert ds == init + [last];
      if u in uris {
        var k :| 0 <= k < |uris| && uris[k] == u;
        assert rows[k] in o.subClasses(last);
      }
      if exists r :: r in rows && r.uri == u {
        var r :| r in rows && r.uri == u;
        var k :| 0 <= k < |rows| && rows[k] == r;
        assert uris[k] == u;
      }
    }
  }

  /** The preferred labels of subclass rows (lines 149-152, 174-178). */
  function LabelsOf(rows: seq<SubClassRow>): set<string>
    decreases |rows|
  {
    if rows == [] then {} else LabelsOf(rows[..|rows| - 1]) + {rows[|rows| - 1].preferred}
  }

  lemma {:induction false} LabelsOfMembers(rows: seq<SubClassRow>, l: string)
    ensures l in LabelsOf(rows) <==> exists r :: r in rows && r.preferred == l
    decreases |rows|
  {
    if rows != [] {
      var init := rows[..|rows| - 1];
      LabelsOfMembers(init, l);
      assert rows == init + [rows[|rows| - 1]];
    }
  }

  /** The labels a structure row brings: its own preferred label and those of
      its direct subclasses. */
  function RowLabels(o: Oracle, st: StructureRow): set<string>
  {
    {st.preferred} + LabelsOf(o.subClasses(st.uri))
  }

  /** What structure row `st` adds to the set `rel`: its labels when the
      fragment of its relation is `rel`, nothing otherwise. */
  function RowShare(o: Oracle, st: StructureRow, rel: string): set<string>
  {
    if Fragment(st.relation) == Some(rel) then RowLabels(o, st) else {}
  }

  /** What a list of structure rows adds to the set `rel`. */
  function Routed(o: Oracle, rows: seq<StructureRow>, rel: string): set<string>
    decreases |rows|
  {
    if rows == [] then {} else Routed(o, rows[..|rows| - 1], rel) + RowShare(o, rows[|rows| - 1], rel)
  }

  lemma RoutedStep(o: Oracle, rows: seq<StructureRow>, i: nat, rel: string)
    requires i < |rows|
    ensures Routed(o, rows[..i + 1], rel) == Routed(o, rows[..i], rel) + RowShare(o, rows[i], rel)
  {
    assert rows[..i + 1][..i] == rows[..i];
  }

  lemma {:induction false} RoutedMembers(o: Oracle, rows: seq<StructureRow>, rel: string, l: string)
    ensures l in Routed(o, rows, rel) <==>
      exists st :: st in rows && Fragment(st.relation) == Some(rel) && l in RowLabels(o, st)
    decreases |rows|
  {
    if rows != [] {
      var init := rows[..|rows| - 1];
      RoutedMembers(o, init, rel, l);
      assert rows == init + [rows[|rows| - 1]];
    }
  }

  /** What the structures related to a list of classes add to the set `rel`. */
  function StructuresOf(o: Oracle, us: seq<Uri>, rel: string): set<string>
    decreases |us|
  {
    if us == [] then {}
    else StructuresOf(o, us[..|us| - 1], rel) + Routed(o, o.structuresByRelated(us[|us| - 1]), rel)
  }

  lemma StructuresOfStep(o: Oracle, us: seq<Uri>, i: nat, rel: string)
    requires i < |us|
    ensures StructuresOf(o, us[..i + 1], rel) == StructuresOf(o, us[..i], rel) + Routed(o, o.structuresByRelated(us[i]), rel)
  {
    assert us[..i + 1][..i] == us[..i];
  }

  /** `l` is brought to the set `rel` by one of the structures related to `u`. */
  ghost predicate Contributes(o: Oracle, u: Uri, rel: string, l: string)
  {
    exists st :: st in o.structuresByRelated(u) && Fragment(st.relation) == Some(rel) && l in RowLabels(o, st)
  }

  lemma {:induction false} StructuresOfMembers(o: Oracle, us: seq<Uri>, rel: string, l: string)
    ensures l in StructuresOf(o, us, rel) <==> exists u :: u in us && l in Routed(o, o.structuresByRelated(u), rel)
    decreases |us|
  {
    if us != [] {
      var init, last := us[..|us| - 1], us[|us| - 1];
      StructuresOfMembers(o, init, rel, l);
      assert us == init + [last];
    }
  }

  /** What one cell adds to the set `rel` (lines 136-178): the structures
      related to the cell, then those related to each tissue reached from it. */
  function CellShare(o: Oracle, c: Uri, rel: string): set<string>
  {
    Routed(o, o.structuresByRelated(c), rel) + StructuresOf(o, OneLevel(o, o.tissuesByCell(c)), rel)
  }

  /** What a list of cells adds to the set `rel`. */
  function CellsShare(o: Oracle, cs: seq<Uri>, rel: string): set<string>
    decreases |cs|
  {
    if cs == [] then {} else CellsShare(o, cs[..|cs| - 1], rel) + CellShare(o, cs[|cs| - 1], rel)
  }

  lemma CellsShareStep(o: Oracle, cs: seq<Uri>, i: nat, rel: string)
    requires i < |cs|
    ensures CellsShare(o, cs[..i + 1], rel) == CellsShare(o, cs[..i], rel) + CellShare(o, cs[i], rel)
  {
    assert cs[..i + 1][..i] == cs[..i];
  }

  lemma {:induction false} CellsShareMembers(o: Oracle, cs: seq<Uri>, rel: string, l: string)
    ensures l in CellsShare(o, cs, rel) <==> exists c :: c in cs && l in CellShare(o, c, rel)
    decreases |cs|
  {
    if cs != [] {
      var init, last := cs[..|cs| - 1], cs[|cs| - 1];
      CellsShareMembers(o, init, rel, l);
      assert cs == init + [last];
    }
  }

  /** The set `rel` of the entry of a probe whose protein is `p`. */
  function ProteinStructures(o: Oracle, p: Uri, rel: string): set<string>
  {
    CellsShare(o, OneLevel(o, o.cellsByProtein(p)), rel)
  }

  /** The two relation sets of an entry (lines 124-125). */
  const RelationKeys: set<string> := {HasPart, SurroundedBy}

  type Entry = map<string, set<string>>

  /** A fresh entry: both sets empty. */
  const EmptyEntry: Entry := map[HasPart := {}, SurroundedBy := {}]

  /** The entry of a probe whose protein is `p`. */
  function EntryFor(o: Oracle, p: Uri): (e: Entry)
    ensures e.Keys == RelationKeys
  {
    map[HasPart := ProteinStructures(o, p, HasPart), SurroundedBy := ProteinStructures(o, p, SurroundedBy)]
  }

  /** `u` is examined for protein `p`: a cell reached from `p`, or a tissue
      reached from such a cell. */
  ghost predicate Reached(o: Oracle, p: Uri, u: Uri)
  {
    exists c :: c in OneLevel(o, o.cellsByProtein(p)) && (u == c || u in OneLevel(o, o.tissuesByCell(c)))
  }

  lemma CellShareMembers(o: Oracle, c: Uri, rel: string, l: string)
    ensures l in CellShare(o, c, rel) <==>
      Contributes(o, c, rel, l) || exists t :: t in OneLevel(o, o.tissuesByCell(c)) && Contributes(o, t, rel, l)
  {
    RoutedMembers(o, o.structuresByRelated(c), rel, l);
    StructuresOfMembers(o, OneLevel(o, o.tissuesByCell(c)), rel, l);
    forall t
      ensures l in Routed(o, o.structuresByRelated(t), rel) <==> Contributes(o, t, rel, l)
    {
      RoutedMembers(o, o.structuresByRelated(t), rel, l);
    }
  }

  /** Sets only grow: a relation set of a probe holds exactly the labels that
      some examined cell or tissue brings to that relation. */
  lemma ProteinStructuresMembers(o: Oracle, p: Uri, rel: string, l: string)
    ensures l in ProteinStructures(o, p, rel) <==> exists u :: Reached(o, p, u) && Contributes(o, u, rel, l)
  {
    var cells := OneLevel(o, o.cellsByProtein(p));
    CellsShareMembers(o, cells, rel, l);
    if l in ProteinStructures(o, p, rel) {
      var c :| c in cells && l in CellShare(o, c, rel);
      CellShareMembers(o, c, rel, l);
      if Contributes(o, c, rel, l) {
        assert Reached(o, p, c);
      } else {
        var t :| t in OneLevel(o, o.tissuesByCell(c)) && Contributes(o, t, rel, l);
        assert Reached(o, p, t);
      }
    }
    if exists u :: Reached(o, p, u) && Contributes(o, u, rel, l) {
      var u :| Reached(o, p, u) && Contributes(o, u, rel, l);
      var c :| c in cells && (u == c || u in OneLevel(o, o.tissuesByCell(c)));
      CellShareMembers(o, c, rel, l);
    }
  }

  /** A structure related to an examined cell or tissue puts its label and the
      labels of all its direct subclasses into the set of its relation. */
  lemma SubStructuresFollowParent(o: Oracle, p: Uri, u: Uri, st: StructureRow, rel: string)
    requires Reached(o, p, u) && st in o.structuresByRelated(u) && Fragment(st.relation) == Some(rel)
    ensures st.preferred in ProteinStructures(o, p, rel)
    ensures forall ss :: ss in o.subClasses(st.uri) ==> ss.preferred in ProteinStructures(o, p, rel)
  {
    ProteinStructuresMembers(o, p, rel, st.preferred);
    forall ss | ss in o.subClasses(st.uri)
      ensures ss.preferred in ProteinStructures(o, p, rel)
    {
      LabelsOfMembers(o.subClasses(st.uri), ss.preferred);
      ProteinStructuresMembers(o, p, rel, ss.preferred);
    }
  }

  /** Lines 129-134 (and 156-161): collect the subclasses of every class, then
      append them to the classes. */
  method ExpandOneLevel(o: Oracle, direct: seq<Uri>) returns (all: seq<Uri>)
    ensures all == OneLevel(o, direct)
  {
    var subs: seq<Uri> := [];
    for i := 0 to |direct|
      invariant subs == SubClassUris(o, direct[..i])
    {
      var rows := o.subClasses(direct[i]);
      var uris := seq(|rows|, k requires 0 <= k < |rows| => rows[k].uri);
      assert direct[..i + 1][..i] == direct[..i];
      subs := subs + uris;
    }
    assert direct[..|direct|] == direct;
    all := direct + subs;
  }

  /** `out` is `entry` with `hp` added to its `has_part` set and `sb` to its
      `surrounded_by` set, and has no other key. */
  predicate Extended(out: Entry, entry: Entry, hp: set<string>, sb: set<string>)
    requires entry.Keys == RelationKeys
  {
    out.Keys == RelationKeys
    && out[HasPart] == entry[HasPart] + hp
    && out[SurroundedBy] == entry[SurroundedBy] + sb
  }

  lemma ExtendedTwice(e0: Entry, e1: Entry, e2: Entry, hp1: set<string>, sb1: set<string>,
                      hp2: set<string>, sb2: set<string>)
    requires e0.Keys == RelationKeys && Extended(e1, e0, hp1, sb1) && Extended(e2, e1, hp2, sb2)
    ensures Extended(e2, e0, hp1 + hp2, sb1 + sb2)
  {
  }

  /** Lines 149-152 (and 174-178): add the preferred label of every subclass
      row to the set `rel`; the other sets are unchanged. */
  method AddLabels(entry: Entry, rel: string, rows: seq<SubClassRow>) returns (out: Entry)
    requires rel in entry
    ensures out.Keys == entry.Keys
    ensures out[rel] == entry[rel] + LabelsOf(rows)
    ensures forall r :: r in entry && r != rel ==> out[r] == entry[r]
  {
    out := entry;
    for k := 0 to |rows|
      invariant out.Keys == entry.Keys
      invariant out[rel] == entry[rel] + LabelsOf(rows[..k])
      invariant forall r :: r in entry && r != rel ==> out[r] == entry[r]
    {
      assert rows[..k + 1][..k] == rows[..k];
      out := out[rel := out[rel] + {rows[k].preferred}];
    }
    assert rows[..|rows|] == rows;
  }

  /** Lines 143-152 (and 168-178) for one structure row: its label and its
      subclasses' labels go into the set its relation names. */
  method AddStructure(o: Oracle, st: StructureRow, entry: Entry) returns (out: Entry)
    requires entry.Keys == RelationKeys
    requires Fragment(st.relation) == Some(HasPart) || Fragment(st.relation) == Some(SurroundedBy)
    ensures Extended(out, entry, RowShare(o, st, HasPart), RowShare(o, st, SurroundedBy))
  {
    var relType := Fragment(st.relation).value;
    out := entry[relType := entry[relType] + {st.preferred}];
    out := AddLabels(out, relType, o.subClasses(st.uri));
  }

  /** Lines 140-152 (and 166-178): every structure related to `u`, in turn. */
  method AddStructures(o: Oracle, u: Uri, entry: Entry) returns (out: Entry)
    requires o.Valid() && entry.Keys == RelationKeys
    ensures Extended(out, entry, Routed(o, o.structuresByRelated(u), HasPart),
                     Routed(o, o.structuresByRelated(u), SurroundedBy))
  {
    var structures := o.structuresByRelated(u);
    out := entry;
    for i := 0 to |structures|
      invariant Extended(out, entry, Routed(o, structures[..i], HasPart), Routed(o, structures[..i], SurroundedBy))
    {
      RelationFragment(o, u, structures[i]);
      RoutedStep(o, structures, i, HasPart);
      RoutedStep(o, structures, i, SurroundedBy);
      ghost var before := out;
      out := AddStructure(o, structures[i], out);
      ExtendedTwice(entry, before, out, Routed(o, structures[..i], HasPart), Routed(o, structures[..i], SurroundedBy),
                    RowShare(o, structures[i], HasPart), RowShare(o, structures[i], SurroundedBy));
    }
    assert structures[..|structures|] == structures;
  }

  /** Lines 163-178: every tissue in turn adds what its structures bring. */
  method AddTissueStructures(o: Oracle, tissues: seq<Uri>, entry: Entry) returns (out: Entry)
    requires o.Valid() && entry.Keys == RelationKeys
    ensures Extended(out, entry, StructuresOf(o, tissues, HasPart), StructuresOf(o, tissues, SurroundedBy))
  {
    out := entry;
    for i := 0 to |tissues|
      invariant Extended(out, entry, StructuresOf(o, tissues[..i], HasPart), StructuresOf(o, tissues[..i], SurroundedBy))
    {
      StructuresOfStep(o, tissues, i, HasPart);
      StructuresOfStep(o, tissues, i, SurroundedBy);
      ghost var before := out;
      out := AddStructures(o, tissues[i], out);
      ExtendedTwice(entry, before, out,
        StructuresOf(o, tissues[..i], HasPart), StructuresOf(o, tissues[..i], SurroundedBy),
        Routed(o, o.structuresByRelated(tissues[i]), HasPart), Routed(o, o.structuresByRelated(tissues[i]), SurroundedBy));
    }
    assert tissues[..|tissues|] == tissues;
  }

  /** Lines 136-178 for one cell: the structures related to the cell, then
      those related to each tissue reached from it. */
  method CollectForCell(o: Oracle, cell: Uri, entry: Entry) returns (out: Entry)
    requires o.Valid() && entry.Keys == RelationKeys
    ensures Extended(out, entry, CellShare(o, cell, HasPart), CellShare(o, cell, SurroundedBy))
  {
    var direct := AddStructures(o, cell, entry);
    var tissues := ExpandOneLevel(o, o.tissuesByCell(cell));
    out := AddTissueStructures(o, tissues, direct);
    ExtendedTwice(entry, direct, out,
      Routed(o, o.structuresByRelated(cell), HasPart), Routed(o, o.structuresByRelated(cell), SurroundedBy),
      StructuresOf(o, tissues, HasPart), StructuresOf(o, tissues, SurroundedBy));
  }

  /** A fresh entry extended by the two relation sets of `p` is its entry. */
  lemma EntryOfSets(o: Oracle, p: Uri, e: Entry)
    requires Extended(e, EmptyEntry, ProteinStructures(o, p, HasPart), ProteinStructures(o, p, SurroundedBy))
    ensures e == EntryFor(o, p)
  {
    var want := EntryFor(o, p);
    assert EmptyEntry[HasPart] == {} && EmptyEntry[SurroundedBy] == {};
    assert e[HasPart] == want[HasPart] && e[SurroundedBy] == want[SurroundedBy];
    assert forall k :: k in e ==> k == HasPart || k == SurroundedBy;
  }

  /** Lines 136-178: every cell in turn adds its share to a fresh entry. */
  method CollectForCells(o: Oracle, cells: seq<Uri>) returns (entry: Entry)
    requires o.Valid()
    ensures Extended(entry, EmptyEntry, CellsShare(o, cells, HasPart), CellsShare(o, cells, SurroundedBy))
  {
    entry := EmptyEntry;
    for j := 0 to |cells|
      invariant Extended(entry, EmptyEntry, CellsShare(o, cells[..j], HasPart), CellsShare(o, cells[..j], SurroundedBy))
    {
      CellsShareStep(o, cells, j, HasPart);
      CellsShareStep(o, cells, j, SurroundedBy);
      ghost var before := entry;
      entry := CollectForCell(o, cells[j], entry);
      ExtendedTwice(EmptyEntry, before, entry,
        CellsShare(o, cells[..j], HasPart), CellsShare(o, cells[..j], SurroundedBy),
        CellShare(o, cells[j], HasPart), CellShare(o, cells[j], SurroundedBy));
    }
    assert cells[..|cells|] == cells;
  }

  /** Lines 124-178 for one probe: a fresh entry grown by every reached cell. */
  method CollectForProtein(o: Oracle, p: Uri) returns (entry: Entry)
    requires o.Valid()
    ensures entry == EntryFor(o, p)
  {
    var cells := ExpandOneLevel(o, o.cellsByProtein(p));
    entry := CollectForCells(o, cells);
    EntryOfSets(o, p, entry);
  }

  /** Lines 115-120: the first protein found for each probe label, keyed by the
      original label; `keys` lists the matched labels once each. */
  method ProbeUris(o: Oracle, probeLabels: seq<string>) returns (keys: seq<string>, uris: map<string, Uri>)
    ensures Distinct(keys)
    ensures forall l :: l in keys <==> l in uris
    ensures forall l :: l in uris <==> l in probeLabels && Proteins(o, l) != []
    ensures forall l :: l in uris ==> Proteins(o, l) != [] && uris[l] == ProbeUri(o, l)
  {
    keys, uris := [], map[];
    for i := 0 to |probeLabels|
      invariant Distinct(keys)
      invariant forall l :: l in keys <==> l in uris
      invariant forall l :: l in uris <==> l in probeLabels[..i] && Proteins(o, l) != []
      invariant forall l :: l in uris ==> Proteins(o, l) != [] && uris[l] == ProbeUri(o, l)
    {
      var probe := probeLabels[i];
      var labelStr := StripAnti(probe);
      var uriResult := o.proteinsBySynonym(labelStr);
      assert probeLabels[..i + 1] == probeLabels[..i] + [probe];
      if |uriResult| == 0 {
        continue;
      }
      if probe !in uris {
        keys := keys + [probe];
      }
      uris := uris[probe := uriResult[0].uri];
    }
    assert probeLabels[..|probeLabels|] == probeLabels;
  }

  /** `get_probe_structure_map`: a probe label is a key exactly when its lookup
      finds a protein, and its entry has exactly the sets `has_part` and
      `surrounded_by`, holding what the cells and tissues reached from that
      protein route to each. */
  method ProbeStructureMap(o: Oracle, probeLabels: seq<string>) returns (result: map<string, Entry>)
    requires o.Valid()
    ensures forall l :: l in result <==> l in probeLabels && Proteins(o, l) != []
    ensures forall l :: l in result ==> Proteins(o, l) != [] && result[l] == EntryFor(o, ProbeUri(o, l))
    ensures forall l :: l in result ==> result[l].Keys == RelationKeys
  {
    var keys, uris := ProbeUris(o, probeLabels);
    result := map[];
    for i := 0 to |keys|
      invariant forall l :: l in result <==> l in keys[..i]
      invariant forall l :: l in result ==> l in uris && result[l] == EntryFor(o, uris[l])
    {
      var probe := keys[i];
      assert keys[..i + 1] == keys[..i] + [probe];
      var entry := CollectForProtein(o, uris[probe]);
      result := result[probe := entry];
    }
    assert keys[..|keys|] == keys;
  }
}
