/**
 * Ontology extraction: work-order rows are turned into a set of typed
 * entities, an ordered (not deduplicated) list of relationship descriptors
 * keyed by label, and the column list.
 *
 * A row is a map from column name to a possibly-null cell; a column the row
 * does not have reads as null, as `row.get(column)` does.
 */
module OntologyProcessor {
  import opened Wrappers

  type Row = map<string, Option<string>>

  /** An entity is a `(label, type)` pair; its label is called `name` here. */
  datatype Entity = Entity(name: string, kind: string)

  /** A relationship descriptor names its endpoints by label. */
  datatype Relationship = Relationship(source: string, target: string, kind: string)

  /** A parsed table: its column names and its rows. */
  datatype Frame = Frame(columns: seq<string>, rows: seq<Row>)

  datatype Ontology = Ontology(entities: seq<Entity>, relationships: seq<Relationship>, attributes: seq<string>)

  // Column names read by the extractor.
  const AssetIdColumn := "Asset ID"
  const AssetNameColumn := "Asset Name"
  const FacilityNameColumn := "Facility Name"
  const DepartmentColumn := "Department"
  const WorkstationNameColumn := "Workstation Name"
  const AssignedToColumn := "Assigned To"
  const WorkOrderIdColumn := "Work Order ID"

  // Entity types emitted.
  const AssetType := "Asset"
  const FacilityType := "Facility"
  const DepartmentType := "Department"
  const WorkstationType := "Workstation"
  const PersonnelType := "Personnel"
  const EntityTypes: set<string> := {AssetType, FacilityType, DepartmentType, WorkstationType, PersonnelType}

  // Relationship types emitted, and the prefix of a work-order label.
  const LocatedIn := "LOCATED_IN"
  const BelongsTo := "BELONGS_TO"
  const AssignedTo := "ASSIGNED_TO"
  const Maintains := "MAINTAINS"
  const WorkOrderPrefix := "WO_"

  /** `row.get(column)`: null when the column is absent. */
  function Cell(row: Row, column: string): Option<string>
  {
    if column in row then row[column] else None
  }

  /** `pd.notna(row.get(column))`. */
  predicate Present(row: Row, column: string)
  {
    Cell(row, column).Some?
  }

  function Value(row: Row, column: string): string
    requires Present(row, column)
  {
    Cell(row, column).value
  }

  /** The label a work order gets as a relationship source. */
  function WorkOrderLabel(id: string): string
  {
    WorkOrderPrefix + id
  }

  /** The value of a column as a set: empty when the cell is null. */
  function CellSet(row: Row, column: string): set<string>
  {
    if Present(row, column) then {Value(row, column)} else {}
  }

  /** The non-null values of the columns whose values become entity labels. */
  function RowLabels(row: Row): set<string>
  {
    CellSet(row, AssetNameColumn) + CellSet(row, FacilityNameColumn) + CellSet(row, DepartmentColumn) +
    CellSet(row, WorkstationNameColumn) + CellSet(row, AssignedToColumn)
  }

  /** A row with none of the columns the extractor reads. */
  predicate NullRow(row: Row)
  {
    !Present(row, AssetIdColumn) && !Present(row, WorkOrderIdColumn) && !Present(row, AssetNameColumn) &&
    !Present(row, FacilityNameColumn) && !Present(row, DepartmentColumn) &&
    !Present(row, WorkstationNameColumn) && !Present(row, AssignedToColumn)
  }

  // ---------------------------------------------------------------------
  // Entities
  // ---------------------------------------------------------------------

  /** The entities one row contributes. */
  function RowEntities(row: Row): set<Entity>
  {
    (if Present(row, AssetIdColumn) && Present(row, AssetNameColumn)
     then {Entity(Value(row, AssetNameColumn), AssetType)} else {}) +
    (if Present(row, FacilityNameColumn) then {Entity(Value(row, FacilityNameColumn), FacilityType)} else {}) +
    (if Present(row, DepartmentColumn) then {Entity(Value(row, DepartmentColumn), DepartmentType)} else {}) +
    (if Present(row, WorkstationNameColumn) then {Entity(Value(row, WorkstationNameColumn), WorkstationType)} else {}) +
    (if Present(row, AssignedToColumn) then {Entity(Value(row, AssignedToColumn), PersonnelType)} else {})
  }

  /** A row's entities have entity types and carry labels from the row's label columns. */
  lemma RowEntitiesShape(row: Row)
    ensures forall e :: e in RowEntities(row) ==> e.kind in EntityTypes && e.name in RowLabels(row)
    ensures NullRow(row) ==> RowEntities(row) == {}
  {
  }

  /** The set the row loop accumulates. */
  function EntitySet(rows: seq<Row>): set<Entity>
  {
    if rows == [] then {} else EntitySet(rows[..|rows| - 1]) + RowEntities(rows[|rows| - 1])
  }

  /** `list(entities)`: the set in some order, each element once. */
  method ListOf<T>(s: set<T>) returns (xs: seq<T>)
    ensures Distinct(xs)
    ensures forall x :: x in xs <==> x in s
    ensures |xs| == |s|
  {
    xs := [];
    var rest := s;
    while rest != {}
      invariant rest <= s
      invariant forall x :: x in xs <==> x in s && x !in rest
      invariant Distinct(xs)
      invariant |xs| + |rest| == |s|
      decreases |rest|
    {
      var x :| x in rest;
      xs := xs + [x];
      rest := rest - {x};
    }
  }

  /** `extract_entities`: the distinct entities of all rows. */
  method ExtractEntities(rows: seq<Row>) returns (entities: seq<Entity>)
    ensures Distinct(entities)
    ensures forall e :: e in entities <==> e in EntitySet(rows)
  {
    var found: set<Entity> := {};
    for i := 0 to |rows|
      invariant found == EntitySet(rows[..i])
    {
      var row := rows[i];
      if Present(row, AssetIdColumn) && Present(row, AssetNameColumn) {
        found := found + {Entity(Value(row, AssetNameColumn), AssetType)};
      }
      if Present(row, FacilityNameColumn) {
        found := found + {Entity(Value(row, FacilityNameColumn), FacilityType)};
      }
      if Present(row, DepartmentColumn) {
        found := found + {Entity(Value(row, DepartmentColumn), DepartmentType)};
      }
      if Present(row, WorkstationNameColumn) {
        found := found + {Entity(Value(row, WorkstationNameColumn), WorkstationType)};
      }
      if Present(row, AssignedToColumn) {
        found := found + {Entity(Value(row, AssignedToColumn), PersonnelType)};
      }
      assert rows[..i + 1][..i] == rows[..i];
    }
    assert rows[..|rows|] == rows;
    entities := ListOf(found);
  }

  /** Every extracted entity has one of the five entity types; none is a work order. */
  lemma {:induction false} EntityTypesClosed(rows: seq<Row>)
    ensures forall e :: e in EntitySet(rows) ==> e.kind in EntityTypes
    ensures forall e :: e in EntitySet(rows) ==> e.kind != "WorkOrder"
  {
    if rows != [] {
      EntityTypesClosed(rows[..|rows| - 1]);
      RowEntitiesShape(rows[|rows| - 1]);
      assert "WorkOrder" !in EntityTypes;
    }
  }

  /** The row has a non-null asset id and the asset name `name`. */
  predicate AssetRow(row: Row, name: string)
  {
    Present(row, AssetIdColumn) && Cell(row, AssetNameColumn) == Some(name)
  }

  lemma RowAsset(row: Row, name: string)
    ensures Entity(name, AssetType) in RowEntities(row) <==> AssetRow(row, name)
  {
  }

  /** An Asset entity exists exactly when some row has both an asset id and that asset name. */
  lemma {:induction false} AssetEntityIff(rows: seq<Row>, name: string)
    ensures Entity(name, AssetType) in EntitySet(rows) <==> exists i :: 0 <= i < |rows| && AssetRow(rows[i], name)
  {
    if rows != [] {
      var n := |rows| - 1;
      var init := rows[..n];
      AssetEntityIff(init, name);
      RowAsset(rows[n], name);
      assert EntitySet(rows) == EntitySet(init) + RowEntities(rows[n]);
      if Entity(name, AssetType) in EntitySet(init) {
        var i :| 0 <= i < |init| && AssetRow(init[i], name);
        assert rows[i] == init[i];
      }
      forall i | 0 <= i < n && AssetRow(rows[i], name)
        ensures Entity(name, AssetType) in EntitySet(init)
      {
        assert init[i] == rows[i];
      }
    }
  }

  /** Every entity label is the value of a label column of some row. */
  lemma {:induction false} EntityLabelsFromRows(rows: seq<Row>, e: Entity)
    requires e in EntitySet(rows)
    ensures exists i :: 0 <= i < |rows| && e.name in RowLabels(rows[i])
  {
    var n := |rows| - 1;
    var init := rows[..n];
    assert EntitySet(rows) == EntitySet(init) + RowEntities(rows[n]);
    if e in EntitySet(init) {
      EntityLabelsFromRows(init, e);
      var i :| 0 <= i < |init| && e.name in RowLabels(init[i]);
      assert rows[i] == init[i];
    } else {
      RowEntitiesShape(rows[n]);
    }
  }

  // ---------------------------------------------------------------------
  // Relationships
  // ---------------------------------------------------------------------

  /** Position of a relationship type in the per-row emission order. */
  function Rank(kind: string): nat
  {
    if kind == LocatedIn then 0
    else if kind == BelongsTo then 1
    else if kind == AssignedTo then 2
    else 3
  }

  /** Asset to facility: needs an asset name and a facility name. */
  function LocatedInRule(row: Row): seq<Relationship>
  {
    if Present(row, AssetNameColumn) && Present(row, FacilityNameColumn)
    then [Relationship(Value(row, AssetNameColumn), Value(row, FacilityNameColumn), LocatedIn)] else []
  }

  /** Asset to department: needs an asset name and a department. */
  function BelongsToRule(row: Row): seq<Relationship>
  {
    if Present(row, AssetNameColumn) && Present(row, DepartmentColumn)
    then [Relationship(Value(row, AssetNameColumn), Value(row, DepartmentColumn), BelongsTo)] else []
  }

  /** Workstation to department: needs a workstation name and a department. */
  function AssignedToRule(row: Row): seq<Relationship>
  {
    if Present(row, WorkstationNameColumn) && Present(row, DepartmentColumn)
    then [Relationship(Value(row, WorkstationNameColumn), Value(row, DepartmentColumn), AssignedTo)] else []
  }

  /** Work order to asset: needs an asset name and a work order id, not an asset id. */
  function MaintainsRule(row: Row): seq<Relationship>
  {
    if Present(row, AssetNameColumn) && Present(row, WorkOrderIdColumn)
    then [Relationship(WorkOrderLabel(Value(row, WorkOrderIdColumn)), Value(row, AssetNameColumn), Maintains)] else []
  }

  /** The descriptors one row contributes, in the order the rules are written. */
  function RowRelationships(row: Row): seq<Relationship>
  {
    LocatedInRule(row) + BelongsToRule(row) + AssignedToRule(row) + MaintainsRule(row)
  }

  /**
   * Within a row the descriptors come in the order LOCATED_IN, BELONGS_TO,
   * ASSIGNED_TO, MAINTAINS, each at most once; a null row emits none.
   */
  lemma RowRelationshipsOrder(row: Row)
    ensures forall i, j :: 0 <= i < j < |RowRelationships(row)| ==>
              Rank(RowRelationships(row)[i].kind) < Rank(RowRelationships(row)[j].kind)
    ensures forall r :: r in RowRelationships(row) ==> r.kind in {LocatedIn, BelongsTo, AssignedTo, Maintains}
    ensures NullRow(row) ==> RowRelationships(row) == []
  {
  }

  /** How many of the four relationship rules a row satisfies. */
  function SatisfiedRules(row: Row): nat
  {
    var asset := Present(row, AssetNameColumn);
    (if asset && Present(row, FacilityNameColumn) then 1 else 0) +
    (if asset && Present(row, DepartmentColumn) then 1 else 0) +
    (if Present(row, WorkstationNameColumn) && Present(row, DepartmentColumn) then 1 else 0) +
    (if asset && Present(row, WorkOrderIdColumn) then 1 else 0)
  }

  function TotalSatisfiedRules(rows: seq<Row>): nat
  {
    if rows == [] then 0 else SatisfiedRules(rows[0]) + TotalSatisfiedRules(rows[1..])
  }

  /** The list the row loop appends to. */
  function Relationships(rows: seq<Row>): seq<Relationship>
  {
    if rows == [] then [] else Relationships(rows[..|rows| - 1]) + RowRelationships(rows[|rows| - 1])
  }

  lemma RuleConcat(done: seq<Relationship>, row: Row)
    ensures done + LocatedInRule(row) + BelongsToRule(row) + AssignedToRule(row) + MaintainsRule(row) ==
      done + RowRelationships(row)
  {
  }

  lemma RelationshipsSnoc(rows: seq<Row>, i: nat)
    requires i < |rows|
    ensures Relationships(rows[..i + 1]) == Relationships(rows[..i]) + RowRelationships(rows[i])
  {
    assert rows[..i + 1][..i] == rows[..i];
  }

  /** `extract_relationships`: every satisfied rule of every row, in row order. */
  method ExtractRelationships(rows: seq<Row>) returns (relationships: seq<Relationship>)
    ensures relationships == Relationships(rows)
  {
    relationships := [];
    for i := 0 to |rows|
      invariant relationships == Relationships(rows[..i])
    {
      var row := rows[i];
      ghost var done := relationships;
      if Present(row, AssetNameColumn) && Present(row, FacilityNameColumn) {
        relationships := relationships + [Relationship(Value(row, AssetNameColumn), Value(row, FacilityNameColumn), LocatedIn)];
      }
      assert relationships == done + LocatedInRule(row);
      if Present(row, AssetNameColumn) && Present(row, DepartmentColumn) {
        relationships := relationships + [Relationship(Value(row, AssetNameColumn), Value(row, DepartmentColumn), BelongsTo)];
      }
      assert relationships == done + LocatedInRule(row) + BelongsToRule(row);
      if Present(row, WorkstationNameColumn) && Present(row, DepartmentColumn) {
        relationships := relationships + [Relationship(Value(row, WorkstationNameColumn), Value(row, DepartmentColumn), AssignedTo)];
      }
      assert relationships == done + LocatedInRule(row) + BelongsToRule(row) + AssignedToRule(row);
      if Present(row, AssetNameColumn) && Present(row, WorkOrderIdColumn) {
        relationships := relationships + [Relationship(WorkOrderLabel(Value(row, WorkOrderIdColumn)), Value(row, AssetNameColumn), Maintains)];
      }
      RuleConcat(done, row);
      RelationshipsSnoc(rows, i);
    }
    assert rows[..|rows|] == rows;
  }

  /** Relationships are emitted in row order: extraction distributes over concatenation of rows. */
  lemma {:induction false} RelationshipsAppend(a: seq<Row>, b: seq<Row>)
    ensures Relationships(a + b) == Relationships(a) + Relationships(b)
  {
    if b != [] {
      var b' := b[..|b| - 1];
      assert (a + b)[..|a + b| - 1] == a + b';
      RelationshipsAppend(a, b');
    } else {
      assert a + b == a;
    }
  }

  /** No deduplication: the output length is the number of satisfied rules over all rows. */
  lemma {:induction false} RelationshipCount(rows: seq<Row>)
    ensures |Relationships(rows)| == TotalSatisfiedRules(rows)
  {
    if rows != [] {
      RelationshipCount(rows[1..]);
      RelationshipsAppend([rows[0]], rows[1..]);
      assert [rows[0]] + rows[1..] == rows;
      assert [rows[0]][..0] == [];
    }
  }

  /** Row `row` emits descriptor `r` under one of the four rules. */
  predicate Emits(row: Row, r: Relationship)
  {
    r in RowRelationships(row)
  }

  /** One row appended: membership in the longer output follows from the shorter one. */
  lemma EmitsStep(rows: seq<Row>, r: Relationship, before: seq<Relationship>, all: seq<Relationship>)
    requires rows != []
    requires all == before + RowRelationships(rows[|rows| - 1])
    requires r in before <==> exists i :: 0 <= i < |rows| - 1 && Emits(rows[i], r)
    ensures r in all <==> exists i :: 0 <= i < |rows| && Emits(rows[i], r)
  {
    var n := |rows| - 1;
    if Emits(rows[n], r) {
      assert r in all;
    }
  }

  /** A descriptor is in the output exactly when some row emits it. */
  lemma {:induction false} RelationshipFromRow(rows: seq<Row>, r: Relationship)
    ensures r in Relationships(rows) <==> exists i :: 0 <= i < |rows| && Emits(rows[i], r)
  {
    if rows != [] {
      var init := rows[..|rows| - 1];
      RelationshipFromRow(init, r);
      assert forall i :: 0 <= i < |init| ==> init[i] == rows[i];
      EmitsStep(rows, r, Relationships(init), Relationships(rows));
    }
  }

  /**
   * The four rules of one row: each descriptor type is emitted exactly when
   * its columns are non-null, with the endpoints the rule names. MAINTAINS
   * needs the asset name and the work order id, not the asset id.
   */
  lemma RowRelationshipRules(row: Row, r: Relationship)
    ensures r in RowRelationships(row) && r.kind == LocatedIn <==>
            Present(row, AssetNameColumn) && Present(row, FacilityNameColumn) &&
            r == Relationship(Value(row, AssetNameColumn), Value(row, FacilityNameColumn), LocatedIn)
    ensures r in RowRelationships(row) && r.kind == BelongsTo <==>
            Present(row, AssetNameColumn) && Present(row, DepartmentColumn) &&
            r == Relationship(Value(row, AssetNameColumn), Value(row, DepartmentColumn), BelongsTo)
    ensures r in RowRelationships(row) && r.kind == AssignedTo <==>
            Present(row, WorkstationNameColumn) && Present(row, DepartmentColumn) &&
            r == Relationship(Value(row, WorkstationNameColumn), Value(row, DepartmentColumn), AssignedTo)
    ensures r in RowRelationships(row) && r.kind == Maintains <==>
            Present(row, AssetNameColumn) && Present(row, WorkOrderIdColumn) &&
            r == Relationship(WorkOrderLabel(Value(row, WorkOrderIdColumn)), Value(row, AssetNameColumn), Maintains)
  {
  }

  /** Rows with all relevant columns null contribute nothing at all. */
  lemma {:induction false} NullRowsContributeNothing(rows: seq<Row>)
    requires forall i :: 0 <= i < |rows| ==> NullRow(rows[i])
    ensures EntitySet(rows) == {}
    ensures Relationships(rows) == []
  {
    if rows != [] {
      NullRowsContributeNothing(rows[..|rows| - 1]);
    }
  }

  /**
   * A located-in descriptor can name an asset that has no Asset entity:
   * the rule needs the asset name only, the entity also needs the asset id.
   */
  lemma DanglingAssetLabel(row: Row, n: string, f: string)
    requires Cell(row, AssetNameColumn) == Some(n) && Cell(row, FacilityNameColumn) == Some(f)
    requires !Present(row, AssetIdColumn)
    ensures Relationship(n, f, LocatedIn) in Relationships([row])
    ensures Entity(n, AssetType) !in EntitySet([row])
  {
    assert [row][..0] == [];
    AssetEntityIff([row], n);
  }

  /** `extract_ontology`: entities, relationships and the column list, whatever the rows hold. */
  method ExtractOntology(frame: Frame) returns (ontology: Ontology)
    ensures Distinct(ontology.entities)
    ensures forall e :: e in ontology.entities <==> e in EntitySet(frame.rows)
    ensures ontology.relationships == Relationships(frame.rows)
    ensures ontology.attributes == frame.columns
  {
    var entities := ExtractEntities(frame.rows);
    var relationships := ExtractRelationships(frame.rows);
    ontology := Ontology(entities, relationships, frame.columns);
  }
}
