/**
 The signing table: which request field fills which column, the two statements of
 `add_signing_data` with their column and parameter lists, and the dictionary that reads it back.
 */
module SigningTable {
  import opened Outcomes
  import opened StaffStore
  import opened SqlStatements

  /** The fields of a request's signing data, and of a profile. */
  datatype SigningField =
    | SupervisorNameField | SupervisorIdField | SectionChiefNameField | SectionChiefIdField
    | SafetyOfficerNameField | SafetyOfficerIdField | PsmSpecialistNameField | PsmSpecialistIdField
    | FactoryManagerNameField | FactoryManagerIdField | SafetySupervisorNameField | SafetySupervisorIdField
    | SafetySpecialistNameField | SafetySpecialistIdField | FactoryField | SectionField
    | DepartmentAbbrField | JobTitleField | SecondDepartmentField

  function FieldName(f: SigningField): string {
    match f
    case SupervisorNameField => "supervisorName"
    case SupervisorIdField => "supervisorID"
    case SectionChiefNameField => "sectionChiefName"
    case SectionChiefIdField => "sectionChiefID"
    case SafetyOfficerNameField => "safetyOfficer1"
    case SafetyOfficerIdField => "safetyOfficer1ID"
    case PsmSpecialistNameField => "psmSpecialistName"
    case PsmSpecialistIdField => "psmSpecialistID"
    case FactoryManagerNameField => "factoryManagerName"
    case FactoryManagerIdField => "factoryManagerID"
    case SafetySupervisorNameField => "safetySupervisorName"
    case SafetySupervisorIdField => "safetySupervisorID"
    case SafetySpecialistNameField => "safetySpecialistName"
    case SafetySpecialistIdField => "safetySpecialistID"
    case FactoryField => "factory"
    case SectionField => "section"
    case DepartmentAbbrField => "departmentAbbr"
    case JobTitleField => "jobTitle"
    case SecondDepartmentField => "secondDepartment"
  }

  /** A name's length, its sixth letter and its fifth from the end, which no other field's name has. */
  function FieldMark(f: SigningField): (nat, char, char) {
    match f
    case SupervisorNameField => (14, 'v', 'r')
    case SupervisorIdField => (12, 'v', 's')
    case SectionChiefNameField => (16, 'o', 'f')
    case SectionChiefIdField => (14, 'o', 'i')
    case SafetyOfficerNameField => (14, 'y', 'i')
    case SafetyOfficerIdField => (16, 'y', 'e')
    case PsmSpecialistNameField => (17, 'e', 't')
    case PsmSpecialistIdField => (15, 'e', 'i')
    case FactoryManagerNameField => (18, 'r', 'r')
    case FactoryManagerIdField => (16, 'r', 'g')
    case SafetySupervisorNameField => (20, 'y', 'r')
    case SafetySupervisorIdField => (18, 'y', 's')
    case SafetySpecialistNameField => (20, 'y', 't')
    case SafetySpecialistIdField => (18, 'y', 'i')
    case FactoryField => (7, 'r', 'c')
    case SectionField => (7, 'o', 'c')
    case DepartmentAbbrField => (14, 't', 't')
    case JobTitleField => (8, 't', 'T')
    case SecondDepartmentField => (16, 'd', 't')
  }

  lemma MarkOfName(f: SigningField)
    ensures var name := FieldName(f);
            |name| > 6 && FieldMark(f) == (|name|, name[5], name[|name| - 5])
  {}

  lemma MarksDiffer(f: SigningField, g: SigningField)
    requires FieldMark(f) == FieldMark(g)
    ensures f == g
  {}

  /** No two fields have one name. */
  lemma NamesDiffer(f: SigningField, g: SigningField)
    requires FieldName(f) == FieldName(g)
    ensures f == g
  {
    MarkOfName(f);
    MarkOfName(g);
    MarksDiffer(f, g);
  }

  /** `signing_data.get(field, '')` for every field. */
  type Details = given: map<SigningField, Cell> | forall f: SigningField :: f in given
    witness map f: SigningField | true :: Null

  function DetailsOf(signing: Row): Details { map f: SigningField | true :: CellAt(signing, FieldName(f), Txt("")) }

  // ----- What the table should hold -------------------------------------------------------------

  /** The cell a column should hold: the person's own data, the department twice, and each detail in
      the column it is for. */
  function CellFor(c: SigningColumn, owner: Cell, name: Cell, department: Cell, given: Details): Cell {
    match c
    case InspectorName => name
    case InspectorId => owner
    case DepartmentName => department
    case DepartmentAbbr => department
    case SupervisorName => given[SupervisorNameField]
    case SupervisorId => given[SupervisorIdField]
    case SectionChiefName => given[SectionChiefNameField]
    case SectionChiefId => given[SectionChiefIdField]
    case SafetyOfficerName => given[SafetyOfficerNameField]
    case SafetyOfficerId => given[SafetyOfficerIdField]
    case PsmSpecialistName => given[PsmSpecialistNameField]
    case PsmSpecialistId => given[PsmSpecialistIdField]
    case FactoryManagerName => given[FactoryManagerNameField]
    case FactoryManagerId => given[FactoryManagerIdField]
    case SafetySupervisorName => given[SafetySupervisorNameField]
    case SafetySupervisorId => given[SafetySupervisorIdField]
    case SafetySpecialistName => given[SafetySpecialistNameField]
    case SafetySpecialistId => given[SafetySpecialistIdField]
    case Factory => given[FactoryField]
    case Section => given[SectionField]
    case JobTitle => given[JobTitleField]
    case SecondDepartment => given[SecondDepartmentField]
  }

  /** The detail a column other than the first four is for. */
  function FieldFor(c: SigningColumn): SigningField {
    match c
    case SupervisorName => SupervisorNameField
    case SupervisorId => SupervisorIdField
    case SectionChiefName => SectionChiefNameField
    case SectionChiefId => SectionChiefIdField
    case SafetyOfficerName => SafetyOfficerNameField
    case SafetyOfficerId => SafetyOfficerIdField
    case PsmSpecialistName => PsmSpecialistNameField
    case PsmSpecialistId => PsmSpecialistIdField
    case FactoryManagerName => FactoryManagerNameField
    case FactoryManagerId => FactoryManagerIdField
    case SafetySupervisorName => SafetySupervisorNameField
    case SafetySupervisorId => SafetySupervisorIdField
    case SafetySpecialistName => SafetySpecialistNameField
    case SafetySpecialistId => SafetySpecialistIdField
    case Factory => FactoryField
    case Section => SectionField
    case JobTitle => JobTitleField
    case SecondDepartment => SecondDepartmentField
    case _ => DepartmentAbbrField
  }

  lemma CellIsDetail(c: SigningColumn, owner: Cell, name: Cell, department: Cell, given: Details)
    requires FieldFor(c) != DepartmentAbbrField
    ensures CellFor(c, owner, name, department, given) == given[FieldFor(c)]
  {}

  function Filed(owner: Cell, name: Cell, department: Cell, given: Details): Signing {
    map c: SigningColumn | true :: CellFor(c, owner, name, department, given)
  }

  function Refilled(rows: seq<Signing>, owner: Cell, filed: Signing): seq<Signing> {
    seq(|rows|, i requires 0 <= i < |rows| => if OwnedBy(rows[i], owner) then filed else rows[i])
  }

  /** The table after `add_signing_data`: the owner's rows refilled, or a new row. */
  function SigningRows(rows: seq<Signing>, owner: Cell, name: Cell, department: Cell, signing: Row): seq<Signing> {
    var row := Filed(owner, name, department, DetailsOf(signing));
    if FindSigning(rows, owner).Some? then Refilled(rows, owner, row) else rows + [row]
  }

  // ----- The statements -------------------------------------------------------------------------

  /** The columns both statements fill from the signing data, in their order. */
  const DETAIL_COLUMNS: seq<SigningColumn> := [
    SupervisorName, SupervisorId, SectionChiefName, SectionChiefId,
    SafetyOfficerName, SafetyOfficerId, PsmSpecialistName, PsmSpecialistId,
    FactoryManagerName, FactoryManagerId, SafetySupervisorName, SafetySupervisorId,
    SafetySpecialistName, SafetySpecialistId, Factory, Section,
    JobTitle, SecondDepartment
  ]

  /** The parameters both statements take from the signing data, in their order. */
  function DetailParams(given: Details): seq<Cell> {
    [ given[SupervisorNameField], given[SupervisorIdField], given[SectionChiefNameField], given[SectionChiefIdField],
      given[SafetyOfficerNameField], given[SafetyOfficerIdField],
      given[PsmSpecialistNameField], given[PsmSpecialistIdField],
      given[FactoryManagerNameField], given[FactoryManagerIdField],
      given[SafetySupervisorNameField], given[SafetySupervisorIdField],
      given[SafetySpecialistNameField], given[SafetySpecialistIdField], given[FactoryField], given[SectionField],
      given[JobTitleField], given[SecondDepartmentField] ]
  }

  /** SET list of the UPDATE statement; its WHERE names the owner. */
  const UPDATE_COLUMNS: seq<SigningColumn> := [InspectorName, DepartmentName, DepartmentAbbr] + DETAIL_COLUMNS

  function UpdateParams(owner: Cell, name: Cell, department: Cell, given: Details): seq<Cell> {
    [name, department, department] + DetailParams(given) + [owner]
  }

  const INSERT_COLUMNS: seq<SigningColumn> := [InspectorName, InspectorId, DepartmentName, DepartmentAbbr]
      + DETAIL_COLUMNS

  const INSERT_VALUES: seq<Value> := [
    Placeholder, Placeholder, Placeholder, Placeholder, Placeholder, Placeholder, Placeholder, Placeholder,
    Placeholder, Placeholder, Placeholder, Placeholder, Placeholder, Placeholder, Placeholder, Placeholder,
    Placeholder, Placeholder, Placeholder, Placeholder, Placeholder, Placeholder
  ]

  function InsertParams(owner: Cell, name: Cell, department: Cell, given: Details): seq<Cell> {
    [name, owner, department, department] + DetailParams(given)
  }

  /** `add_signing_data` run by the server: the UPDATE when the owner has a row, the INSERT otherwise. */
  function WriteSigning(rows: seq<Signing>, owner: Cell, name: Cell, department: Cell,
                        signing: Row): Option<seq<Signing>> {
    if FindSigning(rows, owner).Some?
    then UpdateSigning(rows, UPDATE_COLUMNS, UpdateParams(owner, name, department, DetailsOf(signing)))
    else InsertSigning(rows, INSERT_COLUMNS, INSERT_VALUES, InsertParams(owner, name, department, DetailsOf(signing)))
  }

  // ----- The statements do what they should -----------------------------------------------------

  /** Where a column stands in the list. */
  function PlaceOf(c: SigningColumn): nat {
    match c
    case SupervisorName => 0
    case SupervisorId => 1
    case SectionChiefName => 2
    case SectionChiefId => 3
    case SafetyOfficerName => 4
    case SafetyOfficerId => 5
    case PsmSpecialistName => 6
    case PsmSpecialistId => 7
    case FactoryManagerName => 8
    case FactoryManagerId => 9
    case SafetySupervisorName => 10
    case SafetySupervisorId => 11
    case SafetySpecialistName => 12
    case SafetySpecialistId => 13
    case Factory => 14
    case Section => 15
    case JobTitle => 16
    case SecondDepartment => 17
    case _ => 18
  }

  lemma DetailColumnAt(c: SigningColumn)
    requires PlaceOf(c) < 18
    ensures DETAIL_COLUMNS[PlaceOf(c)] == c
  {}

  lemma DetailColumnsDiffer()
    ensures Distinct(DETAIL_COLUMNS)
    ensures forall c :: c in DETAIL_COLUMNS ==> PlaceOf(c) < 18
  {
    forall i | 0 <= i < 18 ensures PlaceOf(DETAIL_COLUMNS[i]) == i {}
  }

  /** Every detail's parameter stands where its column stands. */
  lemma DetailParamAt(c: SigningColumn, owner: Cell, name: Cell, department: Cell, given: Details)
    requires PlaceOf(c) < 18
    ensures DetailParams(given)[PlaceOf(c)] == CellFor(c, owner, name, department, given)
  {}

  /** Columns in front of the details keep a list distinct when they are and are no details. */
  lemma DistinctWithDetails(first: seq<SigningColumn>)
    requires Distinct(first) && forall c :: c in first ==> PlaceOf(c) >= 18
    ensures Distinct(first + DETAIL_COLUMNS)
  {
    DetailColumnsDiffer();
    var columns := first + DETAIL_COLUMNS;
    forall i, j | 0 <= i < j < |columns| ensures columns[i] != columns[j] {
      assert i < |first| ==> columns[i] in first;
      assert j >= |first| ==> columns[j] in DETAIL_COLUMNS;
    }
  }

  /** What either statement leaves in a column of the details. */
  lemma DetailAssigned(row: Signing, first: seq<SigningColumn>, cells: seq<Cell>, rest: seq<Cell>, c: SigningColumn,
                       owner: Cell, name: Cell, department: Cell, given: Details)
    requires Distinct(first + DETAIL_COLUMNS) && |first| == |cells| && PlaceOf(c) < 18
    ensures SetColumns(row, first + DETAIL_COLUMNS, cells + DetailParams(given) + rest)[c]
            == CellFor(c, owner, name, department, given)
  {
    var columns, params := first + DETAIL_COLUMNS, cells + DetailParams(given) + rest;
    FillCells(row, columns, params, |columns|);
    DetailColumnAt(c);
    DetailParamAt(c, owner, name, department, given);
    assert columns[|first| + PlaceOf(c)] == c;
  }

  /** What either statement leaves in its first columns. */
  lemma FirstAssigned(row: Signing, first: seq<SigningColumn>, cells: seq<Cell>, rest: seq<Cell>, given: Details)
    requires Distinct(first + DETAIL_COLUMNS) && |first| == |cells|
    ensures var after := SetColumns(row, first + DETAIL_COLUMNS, cells + DetailParams(given) + rest);
            forall i :: 0 <= i < |first| ==> after[first[i]] == cells[i]
  {
    var columns, params := first + DETAIL_COLUMNS, cells + DetailParams(given) + rest;
    FillCells(row, columns, params, |columns|);
    assert forall i :: 0 <= i < |first| ==> columns[i] == first[i] && params[i] == cells[i];
  }

  lemma UnnamedStays(row: Signing, columns: seq<SigningColumn>, params: seq<Cell>, c: SigningColumn)
    requires Distinct(columns) && |params| >= |columns| && c !in columns
    ensures SetColumns(row, columns, params)[c] == row[c]
  {
    FillCells(row, columns, params, |columns|);
    assert columns[..|columns|] == columns;
  }

  /** A column it does not name stays. */
  lemma OthersUnassigned(row: Signing, first: seq<SigningColumn>, cells: seq<Cell>, rest: seq<Cell>, given: Details,
                         c: SigningColumn)
    requires Distinct(first + DETAIL_COLUMNS) && |first| == |cells| && c !in first && PlaceOf(c) >= 18
    ensures SetColumns(row, first + DETAIL_COLUMNS, cells + DetailParams(given) + rest)[c] == row[c]
  {
    DetailColumnsDiffer();
    UnnamedStays(row, first + DETAIL_COLUMNS, cells + DetailParams(given) + rest, c);
  }

  lemma PersonOrDetail(c: SigningColumn)
    ensures PlaceOf(c) < 18 || c in [InspectorName, InspectorId, DepartmentName, DepartmentAbbr]
  {}

  /** A statement fills a row when the cells in front are those of their columns and an owner it does
      not write is there already. */
  lemma StatementFiles(row: Signing, first: seq<SigningColumn>, cells: seq<Cell>, rest: seq<Cell>,
                       owner: Cell, name: Cell, department: Cell, given: Details)
    requires Distinct(first + DETAIL_COLUMNS) && |first| == |cells|
    requires forall i :: 0 <= i < |first| ==> cells[i] == CellFor(first[i], owner, name, department, given)
    requires InspectorName in first && DepartmentName in first && DepartmentAbbr in first
    requires InspectorId in first || row[InspectorId] == owner
    ensures SetColumns(row, first + DETAIL_COLUMNS, cells + DetailParams(given) + rest)
            == Filed(owner, name, department, given)
  {
    var after := SetColumns(row, first + DETAIL_COLUMNS, cells + DetailParams(given) + rest);
    FirstAssigned(row, first, cells, rest, given);
    forall c | c in first ensures after[c] == CellFor(c, owner, name, department, given) {}
    forall c: SigningColumn ensures after[c] == CellFor(c, owner, name, department, given) {
      PersonOrDetail(c);
      if PlaceOf(c) < 18 {
        DetailAssigned(row, first, cells, rest, c, owner, name, department, given);
      } else if c !in first {
        OthersUnassigned(row, first, cells, rest, given, c);
      }
    }
  }

  /** The UPDATE statement refills a row of this owner. */
  lemma UpdateFiles(row: Signing, owner: Cell, name: Cell, department: Cell, given: Details)
    requires row[InspectorId] == owner
    ensures Distinct(UPDATE_COLUMNS)
    ensures SetColumns(row, UPDATE_COLUMNS, UpdateParams(owner, name, department, given))
            == Filed(owner, name, department, given)
  {
    DistinctWithDetails([InspectorName, DepartmentName, DepartmentAbbr]);
    StatementFiles(row, [InspectorName, DepartmentName, DepartmentAbbr], [name, department, department], [owner],
                   owner, name, department, given);
  }

  /** The INSERT statement fills a new row. */
  lemma InsertFiles(row: Signing, owner: Cell, name: Cell, department: Cell, given: Details)
    ensures Distinct(INSERT_COLUMNS)
    ensures SetColumns(row, INSERT_COLUMNS, InsertParams(owner, name, department, given))
            == Filed(owner, name, department, given)
  {
    assert InsertParams(owner, name, department, given)
           == [name, owner, department, department] + DetailParams(given) + [];
    DistinctWithDetails([InspectorName, InspectorId, DepartmentName, DepartmentAbbr]);
    StatementFiles(row, [InspectorName, InspectorId, DepartmentName, DepartmentAbbr],
                   [name, owner, department, department], [],
                   owner, name, department, given);
  }

  /** Every value of the INSERT statement is a placeholder, so each takes the parameter at its place. */
  lemma InsertValuesTaken(params: seq<Cell>)
    requires |params| == |INSERT_VALUES|
    ensures Taken(INSERT_VALUES, |INSERT_VALUES|) == |params|
    ensures ValueList(INSERT_VALUES, params, 0) == params
  {
    assert forall v :: v in INSERT_VALUES ==> v == Placeholder;
    AllTaken(INSERT_VALUES, |INSERT_VALUES|);
    forall i | 0 <= i < |INSERT_VALUES| ensures ValueList(INSERT_VALUES, params, 0)[i] == params[i] {
      AllTaken(INSERT_VALUES, i);
    }
  }

  /** An UPDATE whose lists fit sets every row of the owner and no other. */
  lemma OwnerRowsSet(rows: seq<Signing>, columns: seq<SigningColumn>, params: seq<Cell>, filed: Signing)
    requires Distinct(columns) && |params| == |columns| + 1
    requires forall row :: row in rows && OwnedBy(row, params[|columns|]) ==> SetColumns(row, columns, params) == filed
    ensures UpdateSigning(rows, columns, params)
            == Some(Refilled(rows, params[|columns|], filed))
  {
    var updated := UpdateSigning(rows, columns, params).value;
    var refilled := Refilled(rows, params[|columns|], filed);
    forall i | 0 <= i < |rows| ensures updated[i] == refilled[i] { assert rows[i] in rows; }
    assert updated == refilled;
  }

  lemma UpdateWrites(rows: seq<Signing>, owner: Cell, name: Cell, department: Cell, given: Details)
    ensures UpdateSigning(rows, UPDATE_COLUMNS, UpdateParams(owner, name, department, given))
            == Some(Refilled(rows, owner, Filed(owner, name, department, given)))
  {
    var params, filed := UpdateParams(owner, name, department, given), Filed(owner, name, department, given);
    UpdateFiles(filed, owner, name, department, given);
    forall row | row in rows && OwnedBy(row, owner) ensures SetColumns(row, UPDATE_COLUMNS, params) == filed {
      UpdateFiles(row, owner, name, department, given);
    }
    OwnerRowsSet(rows, UPDATE_COLUMNS, params, filed);
  }

  lemma InsertWrites(rows: seq<Signing>, owner: Cell, name: Cell, department: Cell, given: Details)
    ensures InsertSigning(rows, INSERT_COLUMNS, INSERT_VALUES, InsertParams(owner, name, department, given))
            == Some(rows + [Filed(owner, name, department, given)])
  {
    InsertFiles(BLANK, owner, name, department, given);
    InsertValuesTaken(InsertParams(owner, name, department, given));
  }

  /** Writing signing data: the server accepts the statement, and the owner's rows hold the person's
      data and every detail, each in its own column. */
  lemma WriteFiles(rows: seq<Signing>, owner: Cell, name: Cell, department: Cell, signing: Row)
    ensures WriteSigning(rows, owner, name, department, signing)
            == Some(SigningRows(rows, owner, name, department, signing))
  {
    UpdateWrites(rows, owner, name, department, DetailsOf(signing));
    InsertWrites(rows, owner, name, department, DetailsOf(signing));
  }

  // ----- Reading back ---------------------------------------------------------------------------

  /** The dictionary `get_user_with_signing_data` adds to a user: keys and the columns they read. */
  const READ_AS: seq<(SigningField, SigningColumn)> := [
    (SupervisorNameField, SupervisorName), (SupervisorIdField, SupervisorId),
    (SectionChiefNameField, SectionChiefName), (SectionChiefIdField, SectionChiefId),
    (SafetyOfficerNameField, SafetyOfficerName), (SafetyOfficerIdField, SafetyOfficerId),
    (PsmSpecialistNameField, PsmSpecialistName), (PsmSpecialistIdField, PsmSpecialistId),
    (FactoryManagerNameField, FactoryManagerName), (FactoryManagerIdField, FactoryManagerId),
    (SafetySupervisorNameField, SafetySupervisorName), (SafetySupervisorIdField, SafetySupervisorId),
    (SafetySpecialistNameField, SafetySpecialistName), (SafetySpecialistIdField, SafetySpecialistId),
    (FactoryField, Factory), (SectionField, Section), (DepartmentAbbrField, DepartmentAbbr),
    (JobTitleField, JobTitle), (SecondDepartmentField, SecondDepartment)
  ]

  function ReadKeys(): seq<SigningField> { seq(|READ_AS|, i requires 0 <= i < |READ_AS| => READ_AS[i].0) }

  function ReadCells(row: Signing): seq<Cell> { seq(|READ_AS|, i requires 0 <= i < |READ_AS| => row[READ_AS[i].1]) }

  function ReadRow(row: Signing): map<SigningField, Cell> { Fill(map[], ReadKeys(), ReadCells(row), |READ_AS|) }

  /** Where a key stands in the dictionary. */
  function KeyPlace(f: SigningField): nat {
    match f
    case SupervisorNameField => 0
    case SupervisorIdField => 1
    case SectionChiefNameField => 2
    case SectionChiefIdField => 3
    case SafetyOfficerNameField => 4
    case SafetyOfficerIdField => 5
    case PsmSpecialistNameField => 6
    case PsmSpecialistIdField => 7
    case FactoryManagerNameField => 8
    case FactoryManagerIdField => 9
    case SafetySupervisorNameField => 10
    case SafetySupervisorIdField => 11
    case SafetySpecialistNameField => 12
    case SafetySpecialistIdField => 13
    case FactoryField => 14
    case SectionField => 15
    case DepartmentAbbrField => 16
    case JobTitleField => 17
    case SecondDepartmentField => 18
  }

  lemma ReadKeysDiffer()
    ensures Distinct(ReadKeys())
  {
    forall i | 0 <= i < |READ_AS| ensures KeyPlace(ReadKeys()[i]) == i {}
  }

  /** Each field has its place in the dictionary, and the column read for it is the one written. */
  lemma ReadAtFirst(f: SigningField, owner: Cell, name: Cell, department: Cell, given: Details)
    requires KeyPlace(f) < 10
    ensures READ_AS[KeyPlace(f)].0 == f
    ensures CellFor(READ_AS[KeyPlace(f)].1, owner, name, department, given) == given[f]
  {}

  lemma ReadAtLast(f: SigningField, owner: Cell, name: Cell, department: Cell, given: Details)
    requires KeyPlace(f) >= 10
    ensures READ_AS[KeyPlace(f)].0 == f
    ensures CellFor(READ_AS[KeyPlace(f)].1, owner, name, department, given)
            == if f == DepartmentAbbrField then department else given[f]
  {}

  /** Reading a filed row gives every detail under its own field, and the department as abbreviation. */
  lemma ReadFiled(owner: Cell, name: Cell, department: Cell, given: Details, f: SigningField)
    ensures var read := ReadRow(Filed(owner, name, department, given));
            f in read && read[f] == if f == DepartmentAbbrField then department else given[f]
  {
    var row := Filed(owner, name, department, given);
    ReadKeysDiffer();
    if KeyPlace(f) < 10 {
      ReadAtFirst(f, owner, name, department, given);
    } else {
      ReadAtLast(f, owner, name, department, given);
    }
    FillCells(map[], ReadKeys(), ReadCells(row), |READ_AS|);
    assert ReadKeys()[KeyPlace(f)] == f;
  }
}
