/**
 * Rendering of knowledge-graph query records as the text context handed to
 * the chat model: relationship labels, work-order headers grouped by
 * consecutive runs, and up to three indented relationship lines per record.
 *
 * The graph query itself is not modelled: its records (or its failure) are
 * the input.
 */
module ChatContext {
  import opened Wrappers
  import OntologyProcessor

  // ---------------------------------------------------------------------
  // `_format_relationship`
  // ---------------------------------------------------------------------

  /** The fixed phrases for the seven known relation types. */
  const RelationMap: map<string, string> := map[
    "MAINTAINS" := "Maintains",
    "LOCATED_IN" := "Located in",
    "BELONGS_TO" := "Belongs to",
    "ASSIGNED_TO" := "Assigned to",
    "RELATED_TO" := "Related to",
    "PART_OF" := "Part of",
    "REPORTS_TO" := "Reports to"
  ]

  predicate IsUpper(c: char) { 'A' <= c <= 'Z' }
  predicate IsLower(c: char) { 'a' <= c <= 'z' }

  /** A cased character; only ASCII letters are cased in this model. */
  predicate IsCased(c: char) { IsUpper(c) || IsLower(c) }

  function ToUpper(c: char): (u: char)
    ensures IsCased(c) ==> IsUpper(u)
    ensures !IsLower(c) ==> u == c
  {
    if IsLower(c) then (c as int - 32) as char else c
  }

  function ToLower(c: char): (l: char)
    ensures IsCased(c) ==> IsLower(l)
    ensures !IsUpper(c) ==> l == c
  {
    if IsUpper(c) then (c as int + 32) as char else c
  }

  /** `s.replace('_', ' ')` */
  function ReplaceUnderscores(s: string): (r: string)
    ensures |r| == |s|
    ensures forall i :: 0 <= i < |s| ==> r[i] == (if s[i] == '_' then ' ' else s[i])
  {
    if s == [] then [] else [if s[0] == '_' then ' ' else s[0]] + ReplaceUnderscores(s[1..])
  }

  /**
   * `s.title()`: a cased character that follows a cased character is
   * lower-cased, any other cased character is upper-cased, and every other
   * character is kept. `afterCased` says whether the character before `s`
   * was cased.
   */
  function TitleFrom(afterCased: bool, s: string): (r: string)
    ensures |r| == |s|
    decreases |s|
  {
    if s == [] then []
    else
      var c := s[0];
      [if !IsCased(c) then c else if afterCased then ToLower(c) else ToUpper(c)] + TitleFrom(IsCased(c), s[1..])
  }

  function TitleCase(s: string): string
  {
    TitleFrom(false, s)
  }

  /** The title-cased character at position i, decided by s[i] and the character before it. */
  function TitleChar(s: string, i: nat): char
    requires i < |s|
  {
    if !IsCased(s[i]) then s[i]
    else if i > 0 && IsCased(s[i - 1]) then ToLower(s[i])
    else ToUpper(s[i])
  }

  lemma {:induction false} TitleFromPointwise(afterCased: bool, s: string)
    ensures |TitleFrom(afterCased, s)| == |s|
    ensures forall i :: 0 < i < |s| ==> TitleFrom(afterCased, s)[i] == TitleChar(s, i)
    ensures |s| > 0 ==>
      TitleFrom(afterCased, s)[0] == (if !IsCased(s[0]) then s[0] else if afterCased then ToLower(s[0]) else ToUpper(s[0]))
    decreases |s|
  {
    if s != [] {
      var rest := s[1..];
      TitleFromPointwise(IsCased(s[0]), rest);
      forall i | 1 < i < |s|
        ensures TitleFrom(afterCased, s)[i] == TitleChar(s, i)
      {
        assert TitleFrom(afterCased, s)[i] == TitleFrom(IsCased(s[0]), rest)[i - 1];
        assert rest[i - 1] == s[i] && rest[i - 2] == s[i - 1];
      }
    }
  }

  /**
   * `title()` character by character: every cased character is upper-case
   * exactly when it starts a word (nothing cased just before it), and
   * uncased characters are unchanged.
   */
  lemma TitleCasePointwise(s: string)
    ensures |TitleCase(s)| == |s|
    ensures forall i :: 0 <= i < |s| ==> TitleCase(s)[i] == TitleChar(s, i)
  {
    TitleFromPointwise(false, s);
  }

  /** `relation_map.get(relation_type, relation_type.replace('_', ' ').title())` */
  function RelationPhrase(relationType: string): string
  {
    if relationType in RelationMap then RelationMap[relationType]
    else TitleCase(ReplaceUnderscores(relationType))
  }

  /**
   * A relation type outside the map is rendered with its underscores as
   * spaces, each word capitalised and the rest of the word lower-cased.
   */
  lemma UnknownRelationPhrase(relationType: string)
    requires relationType !in RelationMap
    ensures |RelationPhrase(relationType)| == |relationType|
    ensures forall i :: 0 <= i < |relationType| && relationType[i] == '_' ==> RelationPhrase(relationType)[i] == ' '
    ensures forall i :: 0 <= i < |relationType| && !IsCased(relationType[i]) && relationType[i] != '_' ==>
      RelationPhrase(relationType)[i] == relationType[i]
    ensures forall i :: 0 <= i < |relationType| && IsCased(relationType[i]) ==>
      RelationPhrase(relationType)[i] ==
        if i == 0 || !IsCased(relationType[i - 1]) then ToUpper(relationType[i]) else ToLower(relationType[i])
  {
    var spaced := ReplaceUnderscores(relationType);
    TitleCasePointwise(spaced);
  }

  /** The seven known relation types get their fixed phrases, not the fallback. */
  lemma KnownRelationPhrases(relationType: string)
    ensures relationType == "MAINTAINS" ==> RelationPhrase(relationType) == "Maintains"
    ensures relationType == "LOCATED_IN" ==> RelationPhrase(relationType) == "Located in"
    ensures relationType == "BELONGS_TO" ==> RelationPhrase(relationType) == "Belongs to"
    ensures relationType == "ASSIGNED_TO" ==> RelationPhrase(relationType) == "Assigned to"
    ensures relationType == "RELATED_TO" ==> RelationPhrase(relationType) == "Related to"
    ensures relationType == "PART_OF" ==> RelationPhrase(relationType) == "Part of"
    ensures relationType == "REPORTS_TO" ==> RelationPhrase(relationType) == "Reports to"
  {
  }

  /** A Python f-string renders a missing value as `None`. */
  function Show(v: Option<string>): string
  {
    if v.Some? then v.value else "None"
  }

  /** `f"{relation}: {entity} ({entity_type})"` */
  function Label(relation: string, entity: string, entityType: string): string
  {
    relation + ": " + entity + " (" + entityType + ")"
  }

  /** `_format_relationship(relation_type, entity, entity_type)` */
  function FormatRelationship(relationType: string, entity: Option<string>, entityType: Option<string>): string
  {
    Label(RelationPhrase(relationType), Show(entity), Show(entityType))
  }

  /**
   * A label consists of the relation phrase, ": ", the entity, " (", the
   * entity type and ")", so each part can be read back from it given the
   * lengths of the others.
   */
  lemma LabelShape(relation: string, entity: string, entityType: string)
    ensures var r := Label(relation, entity, entityType);
      var p := |relation|;
      var e := |entity|;
      |r| == p + e + |entityType| + 5 &&
      r[..p] == relation &&
      r[p..p + 2] == ": " &&
      r[p + 2..p + 2 + e] == entity &&
      r[p + 2 + e..p + 4 + e] == " (" &&
      r[p + 4 + e..|r| - 1] == entityType &&
      r[|r| - 1] == ')'
  {
    var r := Label(relation, entity, entityType);
    assert r == relation + (": " + (entity + (" (" + (entityType + ")"))));
    var p := |relation|;
    assert r[p..] == ": " + (entity + (" (" + (entityType + ")")));
    assert r[p + 2..] == entity + (" (" + (entityType + ")"));
    assert r[p + 2 + |entity|..] == " (" + (entityType + ")");
    assert r[p + 4 + |entity|..] == entityType + ")";
  }

  /**
   * `_format_relationship` always yields "<phrase>: <entity> (<type>)", with
   * a missing entity or type shown as `None`.
   */
  lemma FormatRelationshipShape(relationType: string, entity: Option<string>, entityType: Option<string>)
    ensures var r := FormatRelationship(relationType, entity, entityType);
      var phrase := RelationPhrase(relationType);
      var p := |phrase|;
      var e := |Show(entity)|;
      |r| == p + e + |Show(entityType)| + 5 &&
      r[..p] == phrase &&
      r[p..p + 2] == ": " &&
      r[p + 2..p + 2 + e] == Show(entity) &&
      r[p + 2 + e..p + 4 + e] == " (" &&
      r[p + 4 + e..|r| - 1] == Show(entityType) &&
      r[|r| - 1] == ')'
  {
    LabelShape(RelationPhrase(relationType), Show(entity), Show(entityType));
  }

  // ---------------------------------------------------------------------
  // Work-order headers: `wo_id.replace('WO_', 'Work Order ')`
  // ---------------------------------------------------------------------

  const WorkOrderWords := "Work Order "

  /** "WO_" occurs in s starting at position i. */
  predicate PrefixAt(s: string, i: nat)
  {
    i + 3 <= |s| && s[i] == 'W' && s[i + 1] == 'O' && s[i + 2] == '_'
  }

  predicate HasNoPrefix(s: string)
  {
    forall i :: 0 <= i < |s| ==> !PrefixAt(s, i)
  }

  /** Every occurrence of "WO_", scanned left to right without overlap, becomes "Work Order ". */
  function Display(s: string): string
    decreases |s|
  {
    if |s| < 3 then s
    else if PrefixAt(s, 0) then WorkOrderWords + Display(s[3..])
    else [s[0]] + Display(s[1..])
  }

  lemma {:induction false} DisplayFirst(s: string)
    requires |s| >= 1
    ensures |Display(s)| >= 1 && Display(s)[0] == s[0]
    decreases |s|
  {
    if |s| >= 3 && !PrefixAt(s, 0) {
      DisplayEmpty(s[1..]);
    }
  }

  lemma DisplayEmpty(s: string)
    ensures |Display(s)| >= |s| - 2
    ensures s == [] <==> Display(s) == []
    decreases |s|
  {
    if |s| >= 3 {
      if PrefixAt(s, 0) {
        DisplayEmpty(s[3..]);
      } else {
        DisplayEmpty(s[1..]);
      }
    }
  }

  lemma DisplaySecond(s: string)
    requires |s| >= 2 && !PrefixAt(s, 0)
    ensures |Display(s)| >= 2 && Display(s)[0] == s[0] && Display(s)[1] == s[1]
  {
    if |s| >= 3 {
      DisplayFirst(s[1..]);
    }
  }

  /** No "WO_" is left in a displayed work order, not even one formed across a replacement. */
  lemma {:induction false} DisplayHasNoPrefix(s: string)
    ensures HasNoPrefix(Display(s))
    decreases |s|
  {
    var r := Display(s);
    if |s| >= 3 {
      if PrefixAt(s, 0) {
        var rest := Display(s[3..]);
        DisplayHasNoPrefix(s[3..]);
        assert r == WorkOrderWords + rest;
        forall i | 0 <= i < |r|
          ensures !PrefixAt(r, i)
        {
          if i >= |WorkOrderWords| {
            assert !PrefixAt(rest, i - |WorkOrderWords|);
          }
        }
      } else {
        var rest := Display(s[1..]);
        DisplayHasNoPrefix(s[1..]);
        assert r == [s[0]] + rest;
        forall i | 0 <= i < |r|
          ensures !PrefixAt(r, i)
        {
          if i >= 1 {
            assert !PrefixAt(rest, i - 1);
          } else if s[0] == 'W' {
            DisplayFirst(s[1..]);
            if s[1] == 'O' {
              DisplaySecond(s[1..]);
            }
          }
        }
      }
    }
  }

  /** A work order without "WO_" is shown unchanged. */
  lemma {:induction false} DisplayKeeps(s: string)
    requires HasNoPrefix(s)
    ensures Display(s) == s
    decreases |s|
  {
    if |s| >= 3 {
      assert !PrefixAt(s, 0);
      assert HasNoPrefix(s[1..]) by {
        forall i | 0 <= i < |s[1..]|
          ensures !PrefixAt(s[1..], i)
        {
          assert !PrefixAt(s, i + 1);
        }
      }
      DisplayKeeps(s[1..]);
      assert s == [s[0]] + s[1..];
    }
  }

  /** The label of a `MAINTAINS` source, "WO_" + id, is shown as "Work Order " + id when id has no "WO_". */
  lemma DisplayWorkOrderLabel(id: string)
    requires HasNoPrefix(id)
    ensures Display(OntologyProcessor.WorkOrderPrefix + id) == WorkOrderWords + id
  {
    var s := OntologyProcessor.WorkOrderPrefix + id;
    assert PrefixAt(s, 0);
    assert s[3..] == id;
    DisplayKeeps(id);
  }

  // ---------------------------------------------------------------------
  // Rendering the records (`_get_graph_context`, after the query)
  // ---------------------------------------------------------------------

  const NoDataMessage := "No relevant work order data found in the knowledge graph."
  const UnavailableMessage := "Unable to retrieve context from the knowledge graph."
  const Heading := "Work Order Information:\n"

  /** The query returns at most this many records (`LIMIT 15`). */
  const RecordLimit := 15

  /** One record of the graph query; any field may be null. */
  datatype QueryRecord = QueryRecord(
    workOrder: Option<string>,
    primaryRelation: Option<string>, entity1: Option<string>, entity1Type: Option<string>,
    secondaryRelation: Option<string>, entity2: Option<string>, entity2Type: Option<string>,
    tertiaryRelation: Option<string>, entity3: Option<string>, entity3Type: Option<string>)

  /** One line of the rendered context. A header keeps the raw work-order label. */
  datatype Line =
    | Header(workOrder: string)
    | Primary(text: string)
    | Secondary(text: string)
    | Tertiary(text: string)

  function LineText(line: Line): string
  {
    match line
    case Header(wo) => "\n" + Display(wo) + ":\n"
    case Primary(text) => "  \U{2022} " + text + "\n"
    case Secondary(text) => "    \U{21B3} " + text + "\n"
    case Tertiary(text) => "      \U{21B3} " + text + "\n"
  }

  /** The position of a line within one record's block. */
  function LineRank(line: Line): nat
  {
    match line
    case Header(_) => 0
    case Primary(_) => 1
    case Secondary(_) => 2
    case Tertiary(_) => 3
  }

  /** Lines appear in strictly increasing rank: header, primary, secondary, tertiary. */
  predicate RankOrdered(lines: seq<Line>)
  {
    forall i, j :: 0 <= i < j < |lines| ==> LineRank(lines[i]) < LineRank(lines[j])
  }

  /** Python truthiness of an optional string: present and not empty. */
  predicate Truthy(v: Option<string>)
  {
    v.Some? && v.value != ""
  }

  /** The work order of the record before position i: `current_wo` when record i is reached. */
  function PreviousWorkOrder(records: seq<QueryRecord>, i: nat): Option<string>
    requires i <= |records|
  {
    if i == 0 then None else records[i - 1].workOrder
  }

  /**
   * `None.replace(...)` raises when a record without a work order follows one
   * with a work order; the handler then returns the fallback message. Without
   * such a record the loop completes.
   */
  predicate RendersWithoutError(records: seq<QueryRecord>)
  {
    forall i :: 0 < i < |records| ==> records[i].workOrder.Some? || records[i - 1].workOrder.None?
  }

  /** The header a record adds: only when its work order is present and differs from the previous one. */
  function HeaderLines(previous: Option<string>, record: QueryRecord): seq<Line>
  {
    if record.workOrder.Some? && record.workOrder != previous then [Header(record.workOrder.value)] else []
  }

  /** The relationship lines a record adds, one per truthy relation field. */
  function RelationLines(record: QueryRecord): seq<Line>
  {
    (if Truthy(record.primaryRelation)
     then [Primary(FormatRelationship(record.primaryRelation.value, record.entity1, record.entity1Type))] else []) +
    (if Truthy(record.secondaryRelation)
     then [Secondary(FormatRelationship(record.secondaryRelation.value, record.entity2, record.entity2Type))] else []) +
    (if Truthy(record.tertiaryRelation)
     then [Tertiary(FormatRelationship(record.tertiaryRelation.value, record.entity3, record.entity3Type))] else [])
  }

  /** The lines one record adds, given the work order of the record before it. */
  function RecordLines(previous: Option<string>, record: QueryRecord): seq<Line>
  {
    HeaderLines(previous, record) + RelationLines(record)
  }

  /** The lines of all records, in record order. */
  function ContextLines(records: seq<QueryRecord>): seq<Line>
  {
    if records == [] then []
    else
      var n := |records| - 1;
      ContextLines(records[..n]) + RecordLines(PreviousWorkOrder(records, n), records[n])
  }

  function LinesText(lines: seq<Line>): string
  {
    if lines == [] then "" else LineText(lines[0]) + LinesText(lines[1..])
  }

  /**
   * The context string for a query outcome: `None` stands for a query that
   * raised.
   */
  function ContextText(outcome: Option<seq<QueryRecord>>): string
  {
    if outcome.None? then UnavailableMessage
    else if outcome.value == [] then NoDataMessage
    else if !RendersWithoutError(outcome.value) then UnavailableMessage
    else Heading + LinesText(ContextLines(outcome.value))
  }

  lemma {:induction false} LinesTextAppend(a: seq<Line>, b: seq<Line>)
    ensures LinesText(a + b) == LinesText(a) + LinesText(b)
  {
    if a == [] {
      assert a + b == b;
    } else {
      assert (a + b)[1..] == a[1..] + b;
      LinesTextAppend(a[1..], b);
      var x, y, z := LineText(a[0]), LinesText(a[1..]), LinesText(b);
      assert x + (y + z) == (x + y) + z;
    }
  }

  /*
   * The three lemmas below state one step of string or line bookkeeping in a
   * context of its own, so that the rendering methods need not prove it
   * among their loop facts.
   */

  lemma LinesTextSingle(line: Line)
    ensures LinesText([line]) == LineText(line)
  {
    assert [line][1..] == [];
  }

  lemma AppendInOrder(a: string, b: string, c: string, d: string)
    ensures a + b + c + d == a + (b + c + d)
  {
  }

  lemma AppendAssociates(a: string, b: string, c: string)
    ensures a + b + c == a + (b + c)
  {
  }

  /** Appending one line's text to the context extends it by that line. */
  lemma AppendLine(context: string, lines: seq<Line>, line: Line)
    ensures context + LinesText(lines) + LineText(line) == context + LinesText(lines + [line])
  {
    LinesTextAppend(lines, [line]);
    LinesTextSingle(line);
  }

  /** The three relationship lines of one record, appended to the context as the loop does. */
  method AppendRelationLines(context: string, record: QueryRecord) returns (result: string)
    ensures result == context + LinesText(RelationLines(record))
  {
    result := context;
    ghost var lines: seq<Line> := [];
    assert result == context + LinesText(lines);
    if Truthy(record.primaryRelation) {
      var text := FormatRelationship(record.primaryRelation.value, record.entity1, record.entity1Type);
      AppendInOrder(result, "  \U{2022} ", text, "\n");
      AppendLine(context, lines, Primary(text));
      result := result + "  \U{2022} " + text + "\n";
      lines := lines + [Primary(text)];
      assert result == context + LinesText(lines);
    }
    assert lines == (if Truthy(record.primaryRelation)
      then [Primary(FormatRelationship(record.primaryRelation.value, record.entity1, record.entity1Type))] else []);
    if Truthy(record.secondaryRelation) {
      var text := FormatRelationship(record.secondaryRelation.value, record.entity2, record.entity2Type);
      AppendInOrder(result, "    \U{21B3} ", text, "\n");
      AppendLine(context, lines, Secondary(text));
      result := result + "    \U{21B3} " + text + "\n";
      lines := lines + [Secondary(text)];
      assert result == context + LinesText(lines);
    }
    if Truthy(record.tertiaryRelation) {
      var text := FormatRelationship(record.tertiaryRelation.value, record.entity3, record.entity3Type);
      AppendInOrder(result, "      \U{21B3} ", text, "\n");
      AppendLine(context, lines, Tertiary(text));
      result := result + "      \U{21B3} " + text + "\n";
      lines := lines + [Tertiary(text)];
      assert result == context + LinesText(lines);
    }
    assert lines == RelationLines(record);
  }

  lemma RendersExtend(records: seq<QueryRecord>, i: nat)
    requires i < |records| && RendersWithoutError(records[..i])
    requires i == 0 || records[i].workOrder.Some? || records[i - 1].workOrder.None?
    ensures RendersWithoutError(records[..i + 1])
  {
    var prefix := records[..i + 1];
    forall k | 0 < k < |prefix|
      ensures prefix[k].workOrder.Some? || prefix[k - 1].workOrder.None?
    {
      if k < i {
        assert records[..i][k] == prefix[k] && records[..i][k - 1] == prefix[k - 1];
      }
    }
  }

  lemma ContextLinesSnoc(records: seq<QueryRecord>, i: nat)
    requires i < |records|
    ensures ContextLines(records[..i + 1]) == ContextLines(records[..i]) + RecordLines(PreviousWorkOrder(records, i), records[i])
  {
    assert records[..i + 1][..i] == records[..i];
  }

  /**
   * The rendering loop of `_get_graph_context`, given the outcome of the
   * graph query (`None` when the query raised).
   */
  method GraphContext(outcome: Option<seq<QueryRecord>>) returns (context: string)
    ensures context == ContextText(outcome)
  {
    if outcome.None? {
      return UnavailableMessage;
    }
    var records := outcome.value;
    if records == [] {
      return NoDataMessage;
    }
    context := Heading;
    var currentWorkOrder: Option<string> := None;
    assert records[..0] == [];
    for i := 0 to |records|
      invariant currentWorkOrder == PreviousWorkOrder(records, i)
      invariant RendersWithoutError(records[..i])
      invariant context == Heading + LinesText(ContextLines(records[..i]))
    {
      var record := records[i];
      var before := context;
      var workOrder := record.workOrder;
      if workOrder != currentWorkOrder {
        currentWorkOrder := workOrder;
        if workOrder.None? {
          // `None.replace(...)` raises; the handler answers with the fallback message.
          assert !RendersWithoutError(records) by {
            assert records[i].workOrder.None? && records[i - 1].workOrder.Some?;
          }
          return UnavailableMessage;
        }
        AppendInOrder(context, "\n", Display(workOrder.value), ":\n");
        context := context + "\n" + Display(workOrder.value) + ":\n";
      }
      ghost var headers := HeaderLines(PreviousWorkOrder(records, i), record);
      assert context == before + LinesText(headers) by {
        if headers != [] {
          LinesTextSingle(headers[0]);
        }
      }
      var withRelations := AppendRelationLines(context, record);
      context := withRelations;
      RendersExtend(records, i);
      ghost var done := ContextLines(records[..i]);
      ghost var added := RecordLines(PreviousWorkOrder(records, i), record);
      LinesTextAppend(headers, RelationLines(record));
      AppendAssociates(before, LinesText(headers), LinesText(RelationLines(record)));
      assert context == before + LinesText(added);
      ContextLinesSnoc(records, i);
      LinesTextAppend(done, added);
      AppendAssociates(Heading, LinesText(done), LinesText(added));
      assert context == Heading + LinesText(done + added);
    }
    assert records[..|records|] == records;
  }

  // ---------------------------------------------------------------------
  // The shape of the rendered context
  // ---------------------------------------------------------------------

  /**
   * One record's block: a header exactly when its work order is present and
   * differs from the previous record's, then a primary, secondary and
   * tertiary line exactly when the matching relation is truthy, in that
   * order; at most four lines.
   */
  lemma RecordLinesShape(previous: Option<string>, record: QueryRecord)
    ensures var lines := RecordLines(previous, record);
      |lines| <= 4 && RankOrdered(lines) &&
      ((exists l :: l in lines && l.Header?) <==> record.workOrder.Some? && record.workOrder != previous) &&
      ((exists l :: l in lines && l.Primary?) <==> Truthy(record.primaryRelation)) &&
      ((exists l :: l in lines && l.Secondary?) <==> Truthy(record.secondaryRelation)) &&
      ((exists l :: l in lines && l.Tertiary?) <==> Truthy(record.tertiaryRelation))
  {
    var h := HeaderLines(previous, record);
    var p := if Truthy(record.primaryRelation)
      then [Primary(FormatRelationship(record.primaryRelation.value, record.entity1, record.entity1Type))] else [];
    var q := if Truthy(record.secondaryRelation)
      then [Secondary(FormatRelationship(record.secondaryRelation.value, record.entity2, record.entity2Type))] else [];
    var t := if Truthy(record.tertiaryRelation)
      then [Tertiary(FormatRelationship(record.tertiaryRelation.value, record.entity3, record.entity3Type))] else [];
    var lines := RecordLines(previous, record);
    assert lines == h + (p + q + t);
    BlockShape(h, p, q, t);
    BlockPresence(h, p, q, t);
  }

  /** Four blocks of at most one line each, of ranks 0 to 3, concatenate into a rank-ordered block. */
  lemma BlockShape(h: seq<Line>, p: seq<Line>, q: seq<Line>, t: seq<Line>)
    requires |h| <= 1 && |p| <= 1 && |q| <= 1 && |t| <= 1
    requires forall l :: l in h ==> LineRank(l) == 0
    requires forall l :: l in p ==> LineRank(l) == 1
    requires forall l :: l in q ==> LineRank(l) == 2
    requires forall l :: l in t ==> LineRank(l) == 3
    ensures var lines := h + (p + q + t);
      |lines| <= 4 && RankOrdered(lines)
  {
    var lines := h + (p + q + t);
    var a, b, c := |h|, |p|, |q|;
    forall k | 0 <= k < |lines|
      ensures LineRank(lines[k]) == if k < a then 0 else if k < a + b then 1 else if k < a + b + c then 2 else 3
    {
      if k < a {
        assert lines[k] == h[k];
      } else if k < a + b {
        assert lines[k] == p[k - a];
      } else if k < a + b + c {
        assert lines[k] == q[k - a - b];
      } else {
        assert lines[k] == t[k - a - b - c];
      }
    }
  }

  /** A block built from four pieces has a line of a given rank exactly when that piece is non-empty. */
  lemma BlockPresence(h: seq<Line>, p: seq<Line>, q: seq<Line>, t: seq<Line>)
    requires forall l :: l in h ==> l.Header?
    requires forall l :: l in p ==> l.Primary?
    requires forall l :: l in q ==> l.Secondary?
    requires forall l :: l in t ==> l.Tertiary?
    ensures var lines := h + (p + q + t);
      ((exists l :: l in lines && l.Header?) <==> h != []) &&
      ((exists l :: l in lines && l.Primary?) <==> p != []) &&
      ((exists l :: l in lines && l.Secondary?) <==> q != []) &&
      ((exists l :: l in lines && l.Tertiary?) <==> t != [])
  {
    var lines := h + (p + q + t);
    assert h != [] ==> h[0] in lines;
    assert p != [] ==> p[0] in lines;
    assert q != [] ==> q[0] in lines;
    assert t != [] ==> t[0] in lines;
  }

  /** The line carries the record's work order, or the formatted relationship of a truthy relation. */
  predicate CarriedBy(record: QueryRecord, line: Line)
  {
    match line
    case Header(wo) => record.workOrder == Some(wo)
    case Primary(text) =>
      Truthy(record.primaryRelation) &&
      text == FormatRelationship(record.primaryRelation.value, record.entity1, record.entity1Type)
    case Secondary(text) =>
      Truthy(record.secondaryRelation) &&
      text == FormatRelationship(record.secondaryRelation.value, record.entity2, record.entity2Type)
    case Tertiary(text) =>
      Truthy(record.tertiaryRelation) &&
      text == FormatRelationship(record.tertiaryRelation.value, record.entity3, record.entity3Type)
  }

  /** Each line of a record's block carries that record's work order or formatted relationship. */
  lemma RecordLinesContent(previous: Option<string>, record: QueryRecord)
    ensures forall l :: l in RecordLines(previous, record) ==> CarriedBy(record, l)
  {
  }

  lemma RecordLinesCount(previous: Option<string>, record: QueryRecord)
    ensures |RecordLines(previous, record)| <= 4
  {
  }

  /** Every record contributes at most four lines. */
  lemma {:induction false} ContextLinesBound(records: seq<QueryRecord>)
    ensures |ContextLines(records)| <= 4 * |records|
    ensures |records| <= RecordLimit ==> |ContextLines(records)| <= 4 * RecordLimit
  {
    if records != [] {
      var n := |records| - 1;
      ContextLinesBound(records[..n]);
      RecordLinesCount(PreviousWorkOrder(records, n), records[n]);
    }
  }

  // ---------------------------------------------------------------------
  // Work-order headers
  // ---------------------------------------------------------------------

  /** A record opens a new section: its work order is present and differs from the previous record's. */
  predicate StartsRun(previous: Option<string>, record: QueryRecord)
  {
    record.workOrder.Some? && record.workOrder != previous
  }

  /** The only header a record's block can hold is its own work order's, at the front of the block. */
  lemma RecordHeaders(previous: Option<string>, record: QueryRecord)
    ensures var lines := RecordLines(previous, record);
      forall k :: 0 <= k < |lines| && lines[k].Header? ==>
        k == 0 && StartsRun(previous, record) && lines[k] == Header(record.workOrder.value)
    ensures var lines := RecordLines(previous, record);
      StartsRun(previous, record) ==> |lines| > 0 && lines[0] == Header(record.workOrder.value)
  {
    var h := HeaderLines(previous, record);
    var r := RelationLines(record);
    assert forall l :: l in r ==> !l.Header?;
    forall k | 0 <= k < |h + r| && (h + r)[k].Header?
      ensures k == 0 && StartsRun(previous, record) && (h + r)[k] == Header(record.workOrder.value)
    {
    }
  }

  /** Some record carries work order `w`. */
  predicate Carries(records: seq<QueryRecord>, w: string)
  {
    exists i :: 0 <= i < |records| && records[i].workOrder == Some(w)
  }

  /** The inductive step of HeadersCoverWorkOrders, over abstract line sequences. */
  lemma CoverStep(records: seq<QueryRecord>, before: seq<Line>, added: seq<Line>, all: seq<Line>)
    requires records != []
    requires forall w :: Header(w) in before <==> Carries(records[..|records| - 1], w)
    requires forall w :: Header(w) in added <==>
      StartsRun(PreviousWorkOrder(records, |records| - 1), records[|records| - 1]) &&
      records[|records| - 1].workOrder == Some(w)
    requires all == before + added
    ensures forall w :: Header(w) in all <==> Carries(records, w)
  {
    var n := |records| - 1;
    var front := records[..n];
    forall w | Header(w) in all
      ensures Carries(records, w)
    {
      if Header(w) in before {
        var i :| 0 <= i < |front| && front[i].workOrder == Some(w);
        assert records[i].workOrder == Some(w);
      } else {
        assert records[n].workOrder == Some(w);
      }
    }
    forall w, i | 0 <= i < |records| && records[i].workOrder == Some(w)
      ensures Header(w) in all
    {
      if i < n {
        assert front[i].workOrder == Some(w);
        assert Carries(front, w);
      } else if !StartsRun(PreviousWorkOrder(records, n), records[n]) {
        assert front[n - 1].workOrder == Some(w);
        assert Carries(front, w);
      }
    }
  }

  /** Every work order that occurs in the records is announced by a header line, and nothing else is. */
  lemma {:induction false} HeadersCoverWorkOrders(records: seq<QueryRecord>)
    ensures forall w :: Header(w) in ContextLines(records) <==> Carries(records, w)
  {
    if records != [] {
      var n := |records| - 1;
      var front := records[..n];
      HeadersCoverWorkOrders(front);
      var previous := PreviousWorkOrder(records, n);
      var added := RecordLines(previous, records[n]);
      RecordHeaders(previous, records[n]);
      forall w | Header(w) in added
        ensures StartsRun(previous, records[n]) && records[n].workOrder == Some(w)
      {
        var k :| 0 <= k < |added| && added[k] == Header(w);
      }
      CoverStep(records, ContextLines(front), added, ContextLines(records));
    }
  }

  /** Records with equal work orders are adjacent, as `ORDER BY work_order` leaves them. */
  predicate Grouped(records: seq<QueryRecord>)
  {
    forall i, j, k :: 0 <= i < j < k < |records| && records[i].workOrder == records[k].workOrder ==>
      records[j].workOrder == records[i].workOrder
  }

  /** No two header lines announce the same work order. */
  predicate HeadersDistinct(lines: seq<Line>)
  {
    forall i, j :: 0 <= i < j < |lines| && lines[i].Header? && lines[j].Header? ==> lines[i] != lines[j]
  }

  lemma GroupedFront(records: seq<QueryRecord>)
    requires records != [] && Grouped(records)
    ensures Grouped(records[..|records| - 1])
  {
    var front := records[..|records| - 1];
    forall i, j, k | 0 <= i < j < k < |front| && front[i].workOrder == front[k].workOrder
      ensures front[j].workOrder == front[i].workOrder
    {
      assert front[i] == records[i] && front[j] == records[j] && front[k] == records[k];
    }
  }

  /** The inductive step of GroupedHeadersDistinct, over abstract line sequences. */
  lemma DistinctStep(records: seq<QueryRecord>, before: seq<Line>, added: seq<Line>, all: seq<Line>)
    requires records != [] && Grouped(records)
    requires HeadersDistinct(before)
    requires forall w :: Header(w) in before <==> Carries(records[..|records| - 1], w)
    requires forall k :: 0 <= k < |added| && added[k].Header? ==>
      k == 0 && StartsRun(PreviousWorkOrder(records, |records| - 1), records[|records| - 1]) &&
      added[k] == Header(records[|records| - 1].workOrder.value)
    requires all == before + added
    ensures HeadersDistinct(all)
  {
    var n := |records| - 1;
    var front := records[..n];
    forall i, j | 0 <= i < j < |all| && all[i].Header? && all[j].Header?
      ensures all[i] != all[j]
    {
      if j < |before| {
        assert all[i] == before[i] && all[j] == before[j];
      } else if i < |before| {
        assert all[j] == added[j - |before|];
        var w := records[n].workOrder.value;
        forall m | 0 <= m < n
          ensures records[m].workOrder != Some(w)
        {
        }
        forall m | 0 <= m < n
          ensures front[m].workOrder != Some(w)
        {
          assert front[m] == records[m];
        }
        assert all[i] == before[i] && before[i] in before;
      }
    }
  }

  /** For records grouped by work order, no work order is announced twice. */
  lemma {:induction false} GroupedHeadersDistinct(records: seq<QueryRecord>)
    requires Grouped(records)
    ensures HeadersDistinct(ContextLines(records))
  {
    if records != [] {
      var n := |records| - 1;
      var front := records[..n];
      GroupedFront(records);
      GroupedHeadersDistinct(front);
      HeadersCoverWorkOrders(front);
      var previous := PreviousWorkOrder(records, n);
      RecordHeaders(previous, records[n]);
      DistinctStep(records, ContextLines(front), RecordLines(previous, records[n]), ContextLines(records));
    }
  }

  /** A record with a work order and no relations. */
  function Bare(workOrder: string): QueryRecord
  {
    QueryRecord(Some(workOrder), None, None, None, None, None, None, None, None, None)
  }

  /**
   * Grouping is by consecutive runs only: work orders A, B, A (out of order)
   * render as three headers, A announced twice.
   */
  lemma UngroupedRecordsRepeatHeaders(a: string, b: string)
    requires a != b
    ensures ContextLines([Bare(a), Bare(b), Bare(a)]) == [Header(a), Header(b), Header(a)]
  {
    var records := [Bare(a), Bare(b), Bare(a)];
    assert records[..0] == [];
    ContextLinesSnoc(records, 0);
    ContextLinesSnoc(records, 1);
    ContextLinesSnoc(records, 2);
    assert records[..3] == records;
  }
}
