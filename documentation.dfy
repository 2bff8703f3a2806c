/**
 * The `document` command: render the collected step metadata as a Markdown
 * section framed by two HTML-comment markers, and splice that section into
 * the existing documentation file between the markers.
 */
module Documentation {
  import opened Text
  import opened FirstSeen
  import opened StepMetadata

  const DocumentationMarkerStart: string := "<!-- {J1_DOCUMENTATION_MARKER_START} -->"
  const DocumentationMarkerEnd: string := "<!-- {J1_DOCUMENTATION_MARKER_END} -->"

  /** The markdown-table renderer is not modelled: any function from rows of cells to text. */
  type TableRenderer = seq<seq<string>> -> string

  // ----- cell values -------------------------------------------------------

  function Backticked(s: string): string
  {
    "`" + s + "`"
  }

  function BacktickedAll(names: seq<string>): (r: seq<string>)
    ensures |r| == |names| && forall i :: 0 <= i < |names| ==> r[i] == Backticked(names[i])
  {
    seq(|names|, i requires 0 <= i < |names| => Backticked(names[i]))
  }

  lemma BacktickedAllSnoc(names: seq<string>, name: string)
    ensures BacktickedAll(names + [name]) == BacktickedAll(names) + [Backticked(name)]
  {
    var l, r := BacktickedAll(names + [name]), BacktickedAll(names) + [Backticked(name)];
    forall i | 0 <= i < |l| ensures l[i] == r[i] {
      if i < |names| {
        assert (names + [name])[i] == names[i];
      }
    }
  }

  /** `buildEntityClassDocumentationValue`. */
  function BuildEntityClassDocumentationValue(entityClass: ClassTag): string
  {
    match entityClass
    case Single(name) => Backticked(name)
    case Many(names) => Join(BacktickedAll(names), ", ")
  }

  /** A single class and a one-element class list are documented alike. */
  lemma SingleClassAsList(name: string)
    ensures BuildEntityClassDocumentationValue(Single(name))
         == BuildEntityClassDocumentationValue(Many([name]))
         == "`" + name + "`"
  {
  }

  /** An empty class list is documented as the empty string. */
  lemma EmptyClassList()
    ensures BuildEntityClassDocumentationValue(Many([])) == ""
  {
  }

  /** One more class appends `, ` and that class in backticks, so the classes appear in order. */
  lemma ClassListAppend(names: seq<string>, name: string)
    requires names != []
    ensures BuildEntityClassDocumentationValue(Many(names + [name]))
         == BuildEntityClassDocumentationValue(Many(names)) + ", " + Backticked(name)
  {
    BacktickedAllSnoc(names, name);
    JoinSnoc(BacktickedAll(names), Backticked(name), ", ");
    assert BuildEntityClassDocumentationValue(Many(names + [name])) == Join(BacktickedAll(names) + [Backticked(name)], ", ");
  }

  // ----- tables --------------------------------------------------------------

  const EntityTableHeader: seq<string> := ["Resources", "Entity `_type`", "Entity `_class`"]
  const RelationshipTableHeader: seq<string> :=
    ["Source Entity `_type`", "Relationship `_class`", "Target Entity `_type`"]

  /** The table row of one entity: resource name, backticked `_type`, documented `_class`. */
  function EntityRow(e: EntityMetadata): seq<string>
  {
    [e.resourceName, Backticked(e.typeName), BuildEntityClassDocumentationValue(e.entityClass)]
  }

  /** The table row of one relationship: backticked source type, bold `_class`, backticked target type. */
  function RelationshipRow(r: RelationshipMetadata): seq<string>
  {
    [Backticked(r.sourceType), "**" + r.relationshipClass + "**", Backticked(r.targetType)]
  }

  /** The rows handed to the table renderer by `generateEntityTableFromAllStepEntityMetadata`. */
  function EntityTableRows(metadata: seq<EntityMetadata>): (rows: seq<seq<string>>)
    ensures |rows| == |metadata| + 1 && rows[0] == EntityTableHeader
    ensures forall i :: 1 <= i < |rows| ==> rows[i] == EntityRow(metadata[i - 1])
  {
    [EntityTableHeader] + seq(|metadata|, i requires 0 <= i < |metadata| => EntityRow(metadata[i]))
  }

  /** The rows handed to the table renderer by `generateRelationshipTableFromAllStepEntityMetadata`. */
  function RelationshipTableRows(metadata: seq<RelationshipMetadata>): (rows: seq<seq<string>>)
    ensures |rows| == |metadata| + 1 && rows[0] == RelationshipTableHeader
    ensures forall i :: 1 <= i < |rows| ==> rows[i] == RelationshipRow(metadata[i - 1])
  {
    [RelationshipTableHeader] + seq(|metadata|, i requires 0 <= i < |metadata| => RelationshipRow(metadata[i]))
  }

  lemma BacktickedInjective(a: string, b: string)
    ensures Backticked(a) == Backticked(b) ==> a == b
  {
    if Backticked(a) == Backticked(b) {
      assert a == Backticked(a)[1..|a| + 1];
      assert b == Backticked(b)[1..|b| + 1];
    }
  }

  /** The `_type` column of the deduplicated entities lists exactly the declared types. */
  lemma EntityTypeColumnCovers(walk: seq<EntityMetadata>, t: string)
    ensures var rows := EntityTableRows(Dedup(walk, EntityType));
      (exists i :: 1 <= i < |rows| && rows[i][1] == Backticked(t)) <==> Declares(walk, EntityType, t)
  {
    var kept := Dedup(walk, EntityType);
    var rows := EntityTableRows(kept);
    DedupIsFirstSeen(walk, EntityType);
    if exists i :: 1 <= i < |rows| && rows[i][1] == Backticked(t) {
      var i :| 1 <= i < |rows| && rows[i][1] == Backticked(t);
      BacktickedInjective(kept[i - 1].typeName, t);
      assert Declares(kept, EntityType, t);
    }
    if Declares(walk, EntityType, t) {
      assert Declares(kept, EntityType, t);
      var j :| 0 <= j < |kept| && EntityType(kept[j]) == t;
      assert rows[j + 1] == EntityRow(kept[j]);
    }
  }

  /** No two rows of the deduplicated entities show the same `_type`. */
  lemma EntityTypeColumnDistinct(walk: seq<EntityMetadata>)
    ensures var rows := EntityTableRows(Dedup(walk, EntityType));
      forall i, j :: 1 <= i < j < |rows| ==> rows[i][1] != rows[j][1]
  {
    var kept := Dedup(walk, EntityType);
    var rows := EntityTableRows(kept);
    DedupUnique(walk, EntityType, {});
    forall i, j | 1 <= i < j < |rows| ensures rows[i][1] != rows[j][1] {
      BacktickedInjective(kept[i - 1].typeName, kept[j - 1].typeName);
    }
  }

  /** Every row of the deduplicated entities documents the first declaration of its type. */
  lemma EntityRowsAreFirstDeclarations(walk: seq<EntityMetadata>)
    ensures var kept := Dedup(walk, EntityType);
      var rows := EntityTableRows(kept);
      forall i :: 0 <= i < |kept| ==>
        Declares(walk, EntityType, kept[i].typeName) &&
        rows[i + 1] == EntityRow(walk[FirstIndex(walk, EntityType, kept[i].typeName)])
  {
    var kept := Dedup(walk, EntityType);
    DedupKeepsFirst(walk, EntityType, {});
    forall i | 0 <= i < |kept|
      ensures Declares(walk, EntityType, kept[i].typeName)
      ensures kept[i] == walk[FirstIndex(walk, EntityType, kept[i].typeName)]
    {
      assert EntityType(kept[i]) == kept[i].typeName;
    }
  }

  /**
   * The entity table of the collected metadata: its `_type` column lists
   * exactly the entity types the steps declare, each once, and every row
   * documents the first declaration of its type.
   */
  lemma EntityTableDocumentsEachTypeOnce(steps: seq<Step>, order: seq<string>)
    requires AllDeclared(steps, order)
    ensures var walk := EntityWalk(steps, order);
      var kept := Dedup(walk, EntityType);
      var rows := EntityTableRows(kept);
      && |rows| == |kept| + 1
      && (forall t :: (exists i :: 1 <= i < |rows| && rows[i][1] == Backticked(t)) <==> Declares(walk, EntityType, t))
      && (forall i, j :: 1 <= i < j < |rows| ==> rows[i][1] != rows[j][1])
      && (forall i :: 0 <= i < |kept| ==>
            Declares(walk, EntityType, kept[i].typeName) &&
            rows[i + 1] == EntityRow(walk[FirstIndex(walk, EntityType, kept[i].typeName)]))
  {
    var walk := EntityWalk(steps, order);
    var kept := Dedup(walk, EntityType);
    var rows := EntityTableRows(kept);
    forall t ensures (exists i :: 1 <= i < |rows| && rows[i][1] == Backticked(t)) <==> Declares(walk, EntityType, t) {
      EntityTypeColumnCovers(walk, t);
    }
    EntityTypeColumnDistinct(walk);
    EntityRowsAreFirstDeclarations(walk);
  }

  /**
   * The relationship table of the collected metadata: one row per
   * relationship type the steps declare, each type once, every row
   * documenting the first declaration of its type.
   */
  lemma RelationshipTableDocumentsEachTypeOnce(steps: seq<Step>, order: seq<string>)
    requires AllDeclared(steps, order)
    ensures var walk := RelationshipWalk(steps, order);
      var kept := Dedup(walk, RelationshipType);
      var rows := RelationshipTableRows(kept);
      && |rows| == |kept| + 1 && UniqueKeys(kept, RelationshipType)
      && (forall t :: Declares(walk, RelationshipType, t) <==> exists i :: 0 <= i < |kept| && kept[i].typeName == t)
      && (forall i :: 0 <= i < |kept| ==>
            Declares(walk, RelationshipType, kept[i].typeName) &&
            rows[i + 1] == RelationshipRow(walk[FirstIndex(walk, RelationshipType, kept[i].typeName)]))
  {
    var walk := RelationshipWalk(steps, order);
    var kept := Dedup(walk, RelationshipType);
    DedupIsFirstSeen(walk, RelationshipType);
    forall t ensures Declares(walk, RelationshipType, t) <==> exists i :: 0 <= i < |kept| && kept[i].typeName == t {
      assert Declares(kept, RelationshipType, t) <==> Declares(walk, RelationshipType, t);
    }
    forall i | 0 <= i < |kept|
      ensures Declares(walk, RelationshipType, kept[i].typeName)
      ensures kept[i] == walk[FirstIndex(walk, RelationshipType, kept[i].typeName)]
    {
      assert RelationshipType(kept[i]) == kept[i].typeName;
    }
  }

  // ----- the generated section ----------------------------------------------

  const Rule: string := "********************************************************************************"

  const SectionOpening: string :=
    "\n<!--\n" + Rule + "\n"
    + "NOTE: ALL OF THE FOLLOWING DOCUMENTATION IS GENERATED USING THE\n"
    + "\"j1-integration document\" COMMAND. DO NOT EDIT BY HAND! PLEASE SEE THE DEVELOPER\n"
    + "DOCUMENTATION FOR USAGE INFORMATION:\n\n"
    + "https://github.com/JupiterOne/sdk/blob/master/docs/integrations/development.md\n"
    + Rule + "\n-->\n\n## Data Model"

  const SectionClosing: string :=
    "\n\n<!--\n" + Rule + "\nEND OF GENERATED DOCUMENTATION AFTER BELOW MARKER\n" + Rule + "\n-->\n"

  /** The entity part of the section: absent exactly when there are no entities. */
  function EntitySection(entities: seq<EntityMetadata>, table: TableRenderer): (s: string)
    ensures s == "" <==> entities == []
  {
    if |entities| == 0 then ""
    else "\n\n### Entities\n\nThe following entities are created:\n\n" + table(EntityTableRows(entities))
  }

  /** The relationship part of the section: absent exactly when there are no relationships. */
  function RelationshipSection(relationships: seq<RelationshipMetadata>, table: TableRenderer): (s: string)
    ensures s == "" <==> relationships == []
  {
    if |relationships| == 0 then ""
    else
      var heading := "\n\n### Relationships\n\nThe following relationships are created/mapped:\n\n";
      heading + table(RelationshipTableRows(relationships))
  }

  /** The text between the two markers. */
  function SectionBody(metadata: GraphObjectMetadata, table: TableRenderer): string
  {
    SectionOpening + EntitySection(metadata.entities, table)
    + RelationshipSection(metadata.relationships, table) + SectionClosing
  }

  /**
   * `generateGraphObjectDocumentationFromStepsMetadata`: whatever the tables
   * hold, the section begins with the start marker and ends with the end marker.
   */
  function GenerateGraphObjectDocumentationFromStepsMetadata(metadata: GraphObjectMetadata, table: TableRenderer)
    : (section: string)
    ensures DocumentationMarkerStart <= section
    ensures EndsWith(section, DocumentationMarkerEnd)
    ensures |section| >= |DocumentationMarkerStart| + |DocumentationMarkerEnd|
  {
    Framed(DocumentationMarkerStart, SectionBody(metadata, table), DocumentationMarkerEnd);
    DocumentationMarkerStart + SectionBody(metadata, table) + DocumentationMarkerEnd
  }

  // ----- splicing into the documentation file -------------------------------

  datatype SpliceResult =
    | Spliced(file: string)
    /** "Documentation starter marker found, but ending marker not found!" */
    | EndMarkerMissing

  /**
   * `replaceBetweenDocumentMarkers` as written: the end marker is searched
   * from the beginning of the file, not after the start marker.
   */
  function ReplaceBetweenDocumentMarkersAsWritten(oldFile: string, section: string): (r: SpliceResult)
    ensures r.EndMarkerMissing? <==>
      Contains(oldFile, DocumentationMarkerStart) && !Contains(oldFile, DocumentationMarkerEnd)
    ensures !Contains(oldFile, DocumentationMarkerStart) ==> r == Spliced(oldFile + "\n\n" + section)
    ensures r.Spliced? && Contains(oldFile, DocumentationMarkerStart) ==>
      r.file == oldFile[..IndexOf(oldFile, DocumentationMarkerStart)] + section
                + oldFile[IndexOf(oldFile, DocumentationMarkerEnd) + |DocumentationMarkerEnd|..]
  {
    IndexOfFinds(oldFile, DocumentationMarkerStart);
    IndexOfFinds(oldFile, DocumentationMarkerEnd);
    var startIndex := IndexOf(oldFile, DocumentationMarkerStart);
    if startIndex == -1 then Spliced(oldFile + "\n\n" + section)
    else
      var endIndex := IndexOf(oldFile, DocumentationMarkerEnd);
      if endIndex == -1 then EndMarkerMissing
      else
        Spliced(oldFile[..startIndex] + section + oldFile[endIndex + |DocumentationMarkerEnd|..])
  }

  /** A start marker followed, after its own text, by an end marker. */
  predicate HasEndAfterStart(oldFile: string)
  {
    var startIndex := IndexOf(oldFile, DocumentationMarkerStart);
    startIndex != -1 &&
    IndexOfFrom(oldFile, DocumentationMarkerEnd, startIndex + |DocumentationMarkerStart|) != -1
  }

  /**
   * `replaceBetweenDocumentMarkers` with the end marker searched after the
   * start marker: the region from the first start marker to the first end
   * marker after it is replaced, and everything outside it is kept.
   */
  function ReplaceBetweenDocumentMarkers(oldFile: string, section: string): (r: SpliceResult)
    ensures r.EndMarkerMissing? <==> Contains(oldFile, DocumentationMarkerStart) && !HasEndAfterStart(oldFile)
    ensures !Contains(oldFile, DocumentationMarkerStart) ==> r == Spliced(oldFile + "\n\n" + section)
    ensures HasEndAfterStart(oldFile) ==>
      var s := IndexOf(oldFile, DocumentationMarkerStart);
      var e := IndexOfFrom(oldFile, DocumentationMarkerEnd, s + |DocumentationMarkerStart|);
      && 0 <= s && OccursAt(oldFile, DocumentationMarkerStart, s)
      && s + |DocumentationMarkerStart| <= e && OccursAt(oldFile, DocumentationMarkerEnd, e)
      && r == Spliced(oldFile[..s] + section + oldFile[e + |DocumentationMarkerEnd|..])
  {
    IndexOfFinds(oldFile, DocumentationMarkerStart);
    var startIndex := IndexOf(oldFile, DocumentationMarkerStart);
    if startIndex == -1 then Spliced(oldFile + "\n\n" + section)
    else
      var endIndex := IndexOfFrom(oldFile, DocumentationMarkerEnd, startIndex + |DocumentationMarkerStart|);
      if endIndex == -1 then EndMarkerMissing
      else
        Spliced(oldFile[..startIndex] + section + oldFile[endIndex + |DocumentationMarkerEnd|..])
  }

  // ----- regenerating an existing section -----------------------------------

  /**
   * A section framed as the generated one is: it begins with the start marker,
   * ends with the end marker, and holds no other end marker after its start marker.
   */
  predicate WellFramed(section: string)
  {
    && |DocumentationMarkerStart| + |DocumentationMarkerEnd| <= |section|
    && DocumentationMarkerStart <= section
    && EndsWith(section, DocumentationMarkerEnd)
    && forall i: nat :: |DocumentationMarkerStart| <= i < |section| - |DocumentationMarkerEnd| ==>
         !OccursAt(section, DocumentationMarkerEnd, i)
  }

  /** The start marker holds no line break. */
  lemma StartMarkerHasNoLineBreak()
    ensures forall k, j :: 0 <= k < |DocumentationMarkerStart| && 0 <= j < |"\n\n"| ==>
      DocumentationMarkerStart[k] != "\n\n"[j]
  {
    assert '\n' !in DocumentationMarkerStart;
  }

  /** The end marker holds no line break. */
  lemma EndMarkerHasNoLineBreak()
    ensures forall k, j :: 0 <= k < |DocumentationMarkerEnd| && 0 <= j < |"\n\n"| ==>
      DocumentationMarkerEnd[k] != "\n\n"[j]
  {
    assert '\n' !in DocumentationMarkerEnd;
  }

  /** The only `<` of the start marker is its first character. */
  lemma StartMarkerOpensOnce()
    ensures DocumentationMarkerStart[0] == '<' && OpensOnce(DocumentationMarkerStart)
  {
    assert forall k :: 0 < k < |DocumentationMarkerStart| ==> DocumentationMarkerStart[k] != '<';
  }

  /** The only `<` of the end marker is its first character. */
  lemma EndMarkerOpensOnce()
    ensures DocumentationMarkerEnd[0] == '<' && OpensOnce(DocumentationMarkerEnd)
  {
    assert forall k :: 0 < k < |DocumentationMarkerEnd| ==> DocumentationMarkerEnd[k] != '<';
  }

  /** Text without the end marker, framed by the two markers, is well framed. */
  lemma FramedBodyIsWellFramed(body: string)
    requires !Contains(body, DocumentationMarkerEnd)
    ensures WellFramed(DocumentationMarkerStart + body + DocumentationMarkerEnd)
  {
    var section := DocumentationMarkerStart + body + DocumentationMarkerEnd;
    var n := |DocumentationMarkerStart|;
    assert section == DocumentationMarkerStart + (body + DocumentationMarkerEnd);
    assert section[..n] == DocumentationMarkerStart;
    assert section[|section| - |DocumentationMarkerEnd|..] == DocumentationMarkerEnd;
    EndMarkerOpensOnce();
    NoOccurrenceBefore(body, DocumentationMarkerEnd, DocumentationMarkerEnd);
    forall i: nat | n <= i < |section| - |DocumentationMarkerEnd|
      ensures !OccursAt(section, DocumentationMarkerEnd, i)
    {
      OccursInSuffix(DocumentationMarkerStart, body + DocumentationMarkerEnd, DocumentationMarkerEnd, i - n);
    }
  }

  /**
   * The generated section is well framed unless the rendered tables or class
   * names themselves hold the end marker.
   */
  lemma GeneratedSectionIsWellFramed(metadata: GraphObjectMetadata, table: TableRenderer)
    requires !Contains(SectionBody(metadata, table), DocumentationMarkerEnd)
    ensures WellFramed(GenerateGraphObjectDocumentationFromStepsMetadata(metadata, table))
  {
    FramedBodyIsWellFramed(SectionBody(metadata, table));
  }

  /** A start marker placed right after `prefix` is the first one, when none starts inside `prefix`. */
  lemma StartFoundAt(prefix: string, a: string, rest: string)
    requires DocumentationMarkerStart <= a
    requires forall p: nat :: p < |prefix| ==> !OccursAt(prefix + DocumentationMarkerStart, DocumentationMarkerStart, p)
    ensures IndexOf(prefix + a + rest, DocumentationMarkerStart) == |prefix|
  {
    var t := prefix + a + rest;
    var n := |prefix| + |DocumentationMarkerStart|;
    assert t[..n] == prefix + DocumentationMarkerStart;
    assert t == t[..n] + t[n..];
    forall p: nat | p < |prefix| ensures !OccursAt(t, DocumentationMarkerStart, p) {
      OccursInPrefix(t[..n], t[n..], DocumentationMarkerStart, p);
    }
    assert t[|prefix|..n] == DocumentationMarkerStart;
    IndexOfFromIs(t, DocumentationMarkerStart, 0, |prefix|);
  }

  /** In a well-framed section placed after `prefix`, the first end marker after its start marker is its own. */
  lemma EndFoundAt(prefix: string, a: string, rest: string)
    requires WellFramed(a)
    ensures IndexOfFrom(prefix + a + rest, DocumentationMarkerEnd, |prefix| + |DocumentationMarkerStart|)
         == |prefix| + |a| - |DocumentationMarkerEnd|
  {
    var t := prefix + a + rest;
    assert t == prefix + (a + rest);
    var e := |a| - |DocumentationMarkerEnd|;
    forall i: nat | |prefix| + |DocumentationMarkerStart| <= i < |prefix| + e
      ensures !OccursAt(t, DocumentationMarkerEnd, i)
    {
      OccursInSuffix(prefix, a + rest, DocumentationMarkerEnd, i - |prefix|);
      OccursInPrefix(a, rest, DocumentationMarkerEnd, i - |prefix|);
    }
    OccursInSuffix(prefix, a + rest, DocumentationMarkerEnd, e);
    OccursInPrefix(a, rest, DocumentationMarkerEnd, e);
    assert OccursAt(a, DocumentationMarkerEnd, e);
    IndexOfFromIs(t, DocumentationMarkerEnd, |prefix| + |DocumentationMarkerStart|, |prefix| + e);
  }

  /** After a file without a start marker and a blank line, no start marker can begin early. */
  lemma NoStartInAppendedFile(oldFile: string)
    requires !Contains(oldFile, DocumentationMarkerStart)
    ensures forall p: nat :: p < |oldFile + "\n\n"| ==>
      !OccursAt(oldFile + "\n\n" + DocumentationMarkerStart, DocumentationMarkerStart, p)
  {
    StartMarkerHasNoLineBreak();
    StartMarkerOpensOnce();
    NoOccurrenceAppending(oldFile, "\n\n", DocumentationMarkerStart);
    NoOccurrenceBefore(oldFile + "\n\n", DocumentationMarkerStart, DocumentationMarkerStart);
  }

  /** Before the first start marker, no start marker can begin, even one running into the marker itself. */
  lemma NoStartBeforeFirst(oldFile: string, s: nat)
    requires s == IndexOf(oldFile, DocumentationMarkerStart)
    ensures forall p: nat :: p < s ==>
      !OccursAt(oldFile[..s] + DocumentationMarkerStart, DocumentationMarkerStart, p)
  {
    StartMarkerOpensOnce();
    IndexOfFinds(oldFile, DocumentationMarkerStart);
    NoOccurrenceBeforeFirst(oldFile, DocumentationMarkerStart);
    NoOccurrenceBefore(oldFile[..s], DocumentationMarkerStart, DocumentationMarkerStart);
  }

  /**
   * A well-framed section that follows a prefix in which no start marker can
   * begin is exactly what the next splice replaces.
   */
  lemma SpliceOverWellFramed(prefix: string, a: string, rest: string, b: string)
    requires WellFramed(a)
    requires forall p: nat :: p < |prefix| ==> !OccursAt(prefix + DocumentationMarkerStart, DocumentationMarkerStart, p)
    ensures ReplaceBetweenDocumentMarkers(prefix + a + rest, b) == Spliced(prefix + b + rest)
  {
    var t := prefix + a + rest;
    StartFoundAt(prefix, a, rest);
    EndFoundAt(prefix, a, rest);
    IndexOfFinds(t, DocumentationMarkerStart);
    assert t[..|prefix|] == prefix;
    assert t[|prefix| + |a|..] == rest;
  }

  /**
   * Running the command again replaces the section it wrote before: splicing
   * `b` into the file that resulted from splicing a well-framed `a` gives
   * what splicing `b` into the original file gives.
   */
  lemma RegenerationReplacesSection(oldFile: string, a: string, b: string)
    requires WellFramed(a)
    requires ReplaceBetweenDocumentMarkers(oldFile, a).Spliced?
    ensures ReplaceBetweenDocumentMarkers(ReplaceBetweenDocumentMarkers(oldFile, a).file, b)
         == ReplaceBetweenDocumentMarkers(oldFile, b)
  {
    if !Contains(oldFile, DocumentationMarkerStart) {
      NoStartInAppendedFile(oldFile);
      assert oldFile + "\n\n" + a == oldFile + "\n\n" + a + "";
      assert oldFile + "\n\n" + b == oldFile + "\n\n" + b + "";
      SpliceOverWellFramed(oldFile + "\n\n", a, "", b);
    } else {
      var s := IndexOf(oldFile, DocumentationMarkerStart);
      var e := IndexOfFrom(oldFile, DocumentationMarkerEnd, s + |DocumentationMarkerStart|);
      var prefix, rest := oldFile[..s], oldFile[e + |DocumentationMarkerEnd|..];
      assert HasEndAfterStart(oldFile);
      assert ReplaceBetweenDocumentMarkers(oldFile, a) == Spliced(prefix + a + rest);
      assert ReplaceBetweenDocumentMarkers(oldFile, b) == Spliced(prefix + b + rest);
      NoStartBeforeFirst(oldFile, s);
      SpliceOverWellFramed(prefix, a, rest, b);
    }
  }

  // ----- the end marker searched from the beginning --------------------------

  /**
   * When the first end marker of the file comes before its first start
   * marker, the splice as written differs from the splice between the
   * markers: it either keeps going where it should report the missing end
   * marker, or it repeats the text between that end marker and the start marker.
   */
  lemma AsWrittenEndBeforeStartDiverges(oldFile: string, section: string)
    requires Contains(oldFile, DocumentationMarkerStart) && Contains(oldFile, DocumentationMarkerEnd)
    requires IndexOf(oldFile, DocumentationMarkerEnd) < IndexOf(oldFile, DocumentationMarkerStart)
    ensures ReplaceBetweenDocumentMarkersAsWritten(oldFile, section).Spliced?
    ensures ReplaceBetweenDocumentMarkersAsWritten(oldFile, section) != ReplaceBetweenDocumentMarkers(oldFile, section)
  {
    IndexOfFinds(oldFile, DocumentationMarkerStart);
    IndexOfFinds(oldFile, DocumentationMarkerEnd);
    var fixed := ReplaceBetweenDocumentMarkers(oldFile, section);
    if fixed.Spliced? {
      var s := IndexOf(oldFile, DocumentationMarkerStart);
      var e1 := IndexOf(oldFile, DocumentationMarkerEnd);
      var e2 := IndexOfFrom(oldFile, DocumentationMarkerEnd, s + |DocumentationMarkerStart|);
      var asWritten := ReplaceBetweenDocumentMarkersAsWritten(oldFile, section).file;
      assert |asWritten| == s + |section| + |oldFile| - e1 - |DocumentationMarkerEnd|;
      assert |fixed.file| == s + |section| + |oldFile| - e2 - |DocumentationMarkerEnd|;
    }
  }

  /**
   * A file made of the end marker alone, documented twice with the splice as
   * written: the second run inserts the new section and keeps the first
   * run's section after it, so the result differs from documenting the
   * original file once.
   */
  lemma AsWrittenKeepsStaleSection(a: string, b: string)
    requires DocumentationMarkerStart <= a
    ensures ReplaceBetweenDocumentMarkersAsWritten(DocumentationMarkerEnd, a)
         == Spliced(DocumentationMarkerEnd + "\n\n" + a)
    ensures ReplaceBetweenDocumentMarkersAsWritten(DocumentationMarkerEnd + "\n\n" + a, b)
         == Spliced(DocumentationMarkerEnd + "\n\n" + b + "\n\n" + a)
    ensures ReplaceBetweenDocumentMarkersAsWritten(DocumentationMarkerEnd + "\n\n" + a, b)
         != ReplaceBetweenDocumentMarkersAsWritten(DocumentationMarkerEnd, b)
  {
    EndMarkerHoldsNoStart();
    StaleSecondRun(a, b);
    var once := ReplaceBetweenDocumentMarkersAsWritten(DocumentationMarkerEnd, b);
    assert once.file == DocumentationMarkerEnd + "\n\n" + b;
    assert |once.file| < |DocumentationMarkerEnd + "\n\n" + b + "\n\n" + a|;
  }

  /** The second run of `AsWrittenKeepsStaleSection`: the new section goes before the stale one. */
  lemma StaleSecondRun(a: string, b: string)
    requires DocumentationMarkerStart <= a
    ensures ReplaceBetweenDocumentMarkersAsWritten(DocumentationMarkerEnd + "\n\n" + a, b)
         == Spliced(DocumentationMarkerEnd + "\n\n" + b + "\n\n" + a)
  {
    var END := DocumentationMarkerEnd;
    var f := END + "\n\n" + a;
    StaleMarkerPositions(a);
    IndexOfFinds(f, DocumentationMarkerStart);
    IndexOfFinds(f, END);
    var r := ReplaceBetweenDocumentMarkersAsWritten(f, b);
    assert r.Spliced?;
    assert r.file == f[..|END| + 2] + b + f[|END|..];
    assert f[..|END| + 2] == END + "\n\n";
    assert f[|END|..] == "\n\n" + a;
    assert (END + "\n\n") + b + ("\n\n" + a) == END + "\n\n" + b + "\n\n" + a;
  }

  /** The end marker is too short to hold the start marker. */
  lemma EndMarkerHoldsNoStart()
    ensures !Contains(DocumentationMarkerEnd, DocumentationMarkerStart)
  {
    assert |DocumentationMarkerStart| > |DocumentationMarkerEnd|;
  }

  /** Where the markers of the end marker followed by a section are found. */
  lemma StaleMarkerPositions(a: string)
    requires DocumentationMarkerStart <= a
    ensures IndexOf(DocumentationMarkerEnd + "\n\n" + a, DocumentationMarkerStart) == |DocumentationMarkerEnd| + 2
    ensures IndexOf(DocumentationMarkerEnd + "\n\n" + a, DocumentationMarkerEnd) == 0
  {
    var END := DocumentationMarkerEnd;
    var f := END + "\n\n" + a;
    EndMarkerHoldsNoStart();
    NoStartInAppendedFile(END);
    assert f == END + "\n\n" + a + "";
    StartFoundAt(END + "\n\n", a, "");
    assert f[..|END|] == END;
    IndexOfFromIs(f, END, 0, 0);
  }

  // ----- files whose markers are in order ----------------------------------

  /**
   * No end marker begins before the first start marker has ended; without a
   * start marker, there is no end marker either.
   */
  predicate NoEndBeforeStart(file: string)
  {
    var s := IndexOf(file, DocumentationMarkerStart);
    var e := IndexOf(file, DocumentationMarkerEnd);
    e == -1 || (s != -1 && s + |DocumentationMarkerStart| <= e)
  }

  /** On a file whose markers are in order, the splice as written is the splice between the markers. */
  lemma AsWrittenAgreesInOrder(oldFile: string, section: string)
    requires NoEndBeforeStart(oldFile)
    ensures ReplaceBetweenDocumentMarkersAsWritten(oldFile, section) == ReplaceBetweenDocumentMarkers(oldFile, section)
  {
    IndexOfFinds(oldFile, DocumentationMarkerStart);
    var s := IndexOf(oldFile, DocumentationMarkerStart);
    var e := IndexOf(oldFile, DocumentationMarkerEnd);
    if s != -1 && e != -1 {
      IndexOfFromIs(oldFile, DocumentationMarkerEnd, s + |DocumentationMarkerStart|, e);
    }
  }

  /** Inside an occurrence of the start marker, no end marker begins. */
  lemma StartHoldsNoEnd(t: string, q: nat)
    requires OccursAt(t, DocumentationMarkerStart, q)
    ensures forall p: nat :: q <= p < q + |DocumentationMarkerStart| ==> !OccursAt(t, DocumentationMarkerEnd, p)
  {
    StartMarkerOpensOnce();
    EndMarkerOpensOnce();
    assert DocumentationMarkerStart[30] == 'S' && DocumentationMarkerEnd[30] == 'E';
    forall p: nat | q <= p < q + |DocumentationMarkerStart| ensures !OccursAt(t, DocumentationMarkerEnd, p) {
      if p + |DocumentationMarkerEnd| <= |t| {
        var w := t[p..p + |DocumentationMarkerEnd|];
        var m := t[q..q + |DocumentationMarkerStart|];
        if p == q {
          assert w[30] == m[30] != DocumentationMarkerEnd[30];
        } else {
          assert w[0] == m[p - q] != DocumentationMarkerEnd[0];
        }
      }
    }
  }

  /**
   * A well-framed section after a prefix holding neither marker, with text
   * after it: the markers of the result are in order.
   */
  lemma SplicedInOrder(prefix: string, a: string, rest: string)
    requires WellFramed(a) && !Contains(prefix, DocumentationMarkerEnd)
    requires forall p: nat :: p < |prefix| ==> !OccursAt(prefix + DocumentationMarkerStart, DocumentationMarkerStart, p)
    ensures NoEndBeforeStart(prefix + a + rest)
  {
    StartFoundAt(prefix, a, rest);
    FirstEndOfSplice(prefix, a, rest);
  }

  /** In a well-framed section after a prefix without the end marker, the first end marker closes the section. */
  lemma FirstEndOfSplice(prefix: string, a: string, rest: string)
    requires WellFramed(a) && !Contains(prefix, DocumentationMarkerEnd)
    ensures IndexOf(prefix + a + rest, DocumentationMarkerEnd) == |prefix| + |a| - |DocumentationMarkerEnd|
  {
    var t := prefix + a + rest;
    var n := |prefix| + |DocumentationMarkerStart|;
    var e := |prefix| + |a| - |DocumentationMarkerEnd|;
    EndFoundAt(prefix, a, rest);
    assert IndexOfFrom(t, DocumentationMarkerEnd, n) == e;
    NoEndBeforeSectionBody(prefix, a, rest);
    assert forall i: nat :: i < e ==> !OccursAt(t, DocumentationMarkerEnd, i);
    IndexOfFromIs(t, DocumentationMarkerEnd, 0, e);
  }

  /** Up to the end of the start marker that opens a well-framed section, a file without the end marker before it holds no end marker. */
  lemma NoEndBeforeSectionBody(prefix: string, a: string, rest: string)
    requires WellFramed(a) && !Contains(prefix, DocumentationMarkerEnd)
    ensures forall i: nat :: i < |prefix| + |DocumentationMarkerStart| ==> !OccursAt(prefix + a + rest, DocumentationMarkerEnd, i)
  {
    var t := prefix + a + rest;
    var n := |prefix| + |DocumentationMarkerStart|;
    assert t[|prefix|..n] == a[..|DocumentationMarkerStart|] == DocumentationMarkerStart;
    EndMarkerOpensOnce();
    assert t == prefix + (a + rest);
    NoOccurrenceBefore(prefix, a + rest, DocumentationMarkerEnd);
    StartHoldsNoEnd(t, |prefix|);
  }

  /** Appending a well-framed section to a file without markers gives a file whose markers are in order. */
  lemma AppendKeepsOrder(oldFile: string, a: string)
    requires WellFramed(a) && NoEndBeforeStart(oldFile)
    requires !Contains(oldFile, DocumentationMarkerStart)
    ensures NoEndBeforeStart(oldFile + "\n\n" + a)
  {
    IndexOfFinds(oldFile, DocumentationMarkerEnd);
    EndMarkerHasNoLineBreak();
    NoOccurrenceAppending(oldFile, "\n\n", DocumentationMarkerEnd);
    NoStartInAppendedFile(oldFile);
    assert oldFile + "\n\n" + a == oldFile + "\n\n" + a + "";
    SplicedInOrder(oldFile + "\n\n", a, "");
  }

  /** Replacing the framed section of a file whose markers are in order by a well-framed one keeps them in order. */
  lemma ReplaceKeepsOrder(oldFile: string, a: string)
    requires WellFramed(a) && NoEndBeforeStart(oldFile)
    requires Contains(oldFile, DocumentationMarkerStart)
    requires ReplaceBetweenDocumentMarkers(oldFile, a).Spliced?
    ensures NoEndBeforeStart(ReplaceBetweenDocumentMarkers(oldFile, a).file)
  {
    var r := ReplaceBetweenDocumentMarkers(oldFile, a);
    assert HasEndAfterStart(oldFile);
    var s := IndexOf(oldFile, DocumentationMarkerStart);
    var e := IndexOfFrom(oldFile, DocumentationMarkerEnd, s + |DocumentationMarkerStart|);
    var prefix, rest := oldFile[..s], oldFile[e + |DocumentationMarkerEnd|..];
    assert r.file == prefix + a + rest;
    PrefixHasNoEnd(oldFile, s);
    NoStartBeforeFirst(oldFile, s);
    SplicedInOrder(prefix, a, rest);
  }

  /** In a file whose markers are in order, no end marker lies before the first start marker. */
  lemma PrefixHasNoEnd(oldFile: string, s: nat)
    requires NoEndBeforeStart(oldFile) && s == IndexOf(oldFile, DocumentationMarkerStart)
    ensures !Contains(oldFile[..s], DocumentationMarkerEnd)
  {
    IndexOfFinds(oldFile, DocumentationMarkerStart);
    IndexOfFinds(oldFile, DocumentationMarkerEnd);
    assert OccursAt(oldFile, DocumentationMarkerStart, s);
    var prefix := oldFile[..s];
    assert oldFile == prefix + oldFile[s..];
    forall p: nat | p <= |prefix| ensures !OccursAt(prefix, DocumentationMarkerEnd, p) {
      if p + |DocumentationMarkerEnd| <= |prefix| {
        OccursInPrefix(prefix, oldFile[s..], DocumentationMarkerEnd, p);
      }
    }
  }

  /** Splicing a well-framed section into a file whose markers are in order keeps them in order. */
  lemma SpliceKeepsOrder(oldFile: string, a: string)
    requires WellFramed(a) && NoEndBeforeStart(oldFile)
    requires ReplaceBetweenDocumentMarkers(oldFile, a).Spliced?
    ensures NoEndBeforeStart(ReplaceBetweenDocumentMarkers(oldFile, a).file)
  {
    if !Contains(oldFile, DocumentationMarkerStart) {
      assert ReplaceBetweenDocumentMarkers(oldFile, a).file == oldFile + "\n\n" + a;
      AppendKeepsOrder(oldFile, a);
    } else {
      ReplaceKeepsOrder(oldFile, a);
    }
  }

  /**
   * On a file whose markers are in order, the command as written regenerates
   * its own section: the file it writes keeps the markers in order, and
   * splicing `b` into it gives what splicing `b` into the original file gives.
   */
  lemma AsWrittenRegenerationReplacesSection(oldFile: string, a: string, b: string)
    requires WellFramed(a) && NoEndBeforeStart(oldFile)
    requires ReplaceBetweenDocumentMarkersAsWritten(oldFile, a).Spliced?
    ensures NoEndBeforeStart(ReplaceBetweenDocumentMarkersAsWritten(oldFile, a).file)
    ensures ReplaceBetweenDocumentMarkersAsWritten(ReplaceBetweenDocumentMarkersAsWritten(oldFile, a).file, b)
         == ReplaceBetweenDocumentMarkersAsWritten(oldFile, b)
  {
    AsWrittenAgreesInOrder(oldFile, a);
    AsWrittenAgreesInOrder(oldFile, b);
    var first := ReplaceBetweenDocumentMarkers(oldFile, a).file;
    SpliceKeepsOrder(oldFile, a);
    RegenerationReplacesSection(oldFile, a, b);
    AsWrittenAgreesInOrder(first, b);
  }

  // ----- the command ---------------------------------------------------------

  datatype DocumentOutcome =
    /** "No entities or relationships found to generate documentation for. Exiting." */
    | NothingToDocument
    | Written(file: string)
    | MissingEndMarker

  /**
   * `executeDocumentAction` after the configuration and the documentation file
   * are loaded: collect the metadata; stop when there is none; otherwise
   * generate the section and splice it into the file, with the splice as
   * written. When the markers of the file are in order, that is the splice
   * between the markers.
   */
  method ExecuteDocumentAction(steps: seq<Step>, order: seq<string>, oldFile: string, table: TableRenderer)
    returns (outcome: DocumentOutcome)
    requires AllDeclared(steps, order)
    ensures outcome.NothingToDocument? <==>
      EntityWalk(steps, order) == [] && RelationshipWalk(steps, order) == []
    ensures !outcome.NothingToDocument? ==>
      var metadata := GraphObjectMetadata(Dedup(EntityWalk(steps, order), EntityType),
                                          Dedup(RelationshipWalk(steps, order), RelationshipType));
      var spliced := ReplaceBetweenDocumentMarkersAsWritten(oldFile,
                       GenerateGraphObjectDocumentationFromStepsMetadata(metadata, table));
      outcome == if spliced.Spliced? then Written(spliced.file) else MissingEndMarker
    ensures !outcome.NothingToDocument? && NoEndBeforeStart(oldFile) ==>
      var metadata := GraphObjectMetadata(Dedup(EntityWalk(steps, order), EntityType),
                                          Dedup(RelationshipWalk(steps, order), RelationshipType));
      var spliced := ReplaceBetweenDocumentMarkers(oldFile,
                       GenerateGraphObjectDocumentationFromStepsMetadata(metadata, table));
      outcome == if spliced.Spliced? then Written(spliced.file) else MissingEndMarker
  {
    var metadata := CollectGraphObjectMetadataFromSteps(steps, order);
    DedupEmpty(EntityWalk(steps, order), EntityType, {});
    DedupEmpty(RelationshipWalk(steps, order), RelationshipType, {});
    if |metadata.entities| == 0 && |metadata.relationships| == 0 {
      return NothingToDocument;
    }
    assert EntityWalk(steps, order) != [] || RelationshipWalk(steps, order) != [];
    var newSection := GenerateGraphObjectDocumentationFromStepsMetadata(metadata, table);
    var spliced := ReplaceBetweenDocumentMarkersAsWritten(oldFile, newSection);
    if NoEndBeforeStart(oldFile) {
      AsWrittenAgreesInOrder(oldFile, newSection);
    }
    outcome := if spliced.Spliced? then Written(spliced.file) else MissingEndMarker;
  }
}
