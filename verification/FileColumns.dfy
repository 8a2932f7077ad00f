/** Which file column fills which column of the signing table. */
module FileColumns {
  import opened Outcomes
  import opened Text
  import opened StaffStore
  import opened SqlStatements
  import opened SigningTable
  import opened BulkImport

  /** The stripped text of a file column. */
  function Cut(row: CsvRow, i: nat): Cell
    requires i < |row|
  {
    Txt(Strip(row[i]))
  }

  // ----- The signing table ----------------------------------------------------------------------

  /** What every column of the signing table is filled from; no file column is for the job title. */
  function FileCell(row: CsvRow, c: SigningColumn): Cell
    requires |row| >= 23
  {
    match c
    case InspectorName => Cut(row, 0)
    case InspectorId => Cut(row, 1)
    case DepartmentName => Cut(row, 18)
    case DepartmentAbbr => Cut(row, 18)
    case SupervisorName => Cut(row, 2)
    case SupervisorId => Cut(row, 3)
    case SectionChiefName => Cut(row, 4)
    case SectionChiefId => Cut(row, 5)
    case SafetyOfficerName => Cut(row, 6)
    case SafetyOfficerId => Cut(row, 7)
    case PsmSpecialistName => Cut(row, 8)
    case PsmSpecialistId => Cut(row, 9)
    case FactoryManagerName => Cut(row, 10)
    case FactoryManagerId => Cut(row, 11)
    case SafetySupervisorName => Cut(row, 12)
    case SafetySupervisorId => Cut(row, 13)
    case SafetySpecialistName => Cut(row, 14)
    case SafetySpecialistId => Cut(row, 15)
    case Factory => Cut(row, 16)
    case Section => Cut(row, 17)
    case JobTitle => Txt("")
    case SecondDepartment => Cut(row, 21)
  }

  predicate FiledFrom(row: CsvRow, filed: Signing)
    requires |row| >= 23
  {
    forall c: SigningColumn :: filed[c] == FileCell(row, c)
  }

  lemma SigningKeysDiffer()
    ensures Distinct(SigningKeys())
  {
    forall i, j | 0 <= i < j < |SIGNING_COLUMNS| ensures SigningKeys()[i] != SigningKeys()[j] {
      PlacesInFile(i);
      PlacesInFile(j);
      if SigningKeys()[i] == SigningKeys()[j] { NamesDiffer(SIGNING_COLUMNS[i].0, SIGNING_COLUMNS[j].0); }
    }
  }

  /** Where a field stands in the line's signing data; the job title has no place. */
  function FilePlace(f: SigningField): nat {
    match f
    case SupervisorNameField => 0
    case SupervisorIdField => 1
    case SectionChiefNameField => 2
    case SectionChiefIdField => 3
    case SafetyOfficerNameField => 4
    case SafetyOfficerIdField => 5
    case PsmSpecialistNameField => 6
    case PsmSpecialistIdField => 7
    case FactoryManagerNameField => 8
    case FactoryManagerIdField => 9
    case SafetySupervisorNameField => 10
    case SafetySupervisorIdField => 11
    case SafetySpecialistNameField => 12
    case SafetySpecialistIdField => 13
    case FactoryField => 14
    case SectionField => 15
    case DepartmentAbbrField => 16
    case SecondDepartmentField => 17
    case JobTitleField => 18
  }

  lemma PlacesInFile(i: nat)
    requires i < 18
    ensures FilePlace(SIGNING_COLUMNS[i].0) == i
  {}

  function FileColumn(f: SigningField): nat {
    match f
    case SupervisorNameField => 2
    case SupervisorIdField => 3
    case SectionChiefNameField => 4
    case SectionChiefIdField => 5
    case SafetyOfficerNameField => 6
    case SafetyOfficerIdField => 7
    case PsmSpecialistNameField => 8
    case PsmSpecialistIdField => 9
    case FactoryManagerNameField => 10
    case FactoryManagerIdField => 11
    case SafetySupervisorNameField => 12
    case SafetySupervisorIdField => 13
    case SafetySpecialistNameField => 14
    case SafetySpecialistIdField => 15
    case FactoryField => 16
    case SectionField => 17
    case DepartmentAbbrField => 19
    case SecondDepartmentField => 21
    case JobTitleField => 0
  }

  lemma ColumnAtPlace(f: SigningField)
    requires f != JobTitleField
    ensures FilePlace(f) < 18 && SIGNING_COLUMNS[FilePlace(f)] == (f, FileColumn(f))
  {}

  lemma KeyHolds(row: CsvRow, i: nat)
    requires |row| >= COLUMNS && i < 18
    ensures SigningKeys()[i] in SigningOf(row) && SigningOf(row)[SigningKeys()[i]] == SigningCells(row)[i]
  {
    SigningKeysDiffer();
    FillCells(map[], SigningKeys(), SigningCells(row), 18);
  }

  lemma FieldInFile(row: CsvRow, f: SigningField)
    requires |row| >= COLUMNS && f != JobTitleField
    ensures FileColumn(f) < COLUMNS && DetailsOf(SigningOf(row))[f] == Cut(row, FileColumn(f))
  {
    ColumnAtPlace(f);
    KeyHolds(row, FilePlace(f));
    assert SigningKeys()[FilePlace(f)] == FieldName(f);
  }

  lemma NoJobTitle(row: CsvRow)
    requires |row| >= COLUMNS
    ensures DetailsOf(SigningOf(row))[JobTitleField] == Txt("")
  {
    SigningKeysDiffer();
    FillCells(map[], SigningKeys(), SigningCells(row), 18);
    forall i | 0 <= i < 18 ensures SigningKeys()[i] != FieldName(JobTitleField) {
      PlacesInFile(i);
      if SigningKeys()[i] == FieldName(JobTitleField) { NamesDiffer(SIGNING_COLUMNS[i].0, JobTitleField); }
    }
  }

  lemma FileCellOfField(row: CsvRow, c: SigningColumn)
    requires |row| >= 23 && FieldFor(c) != DepartmentAbbrField && c != JobTitle
    ensures FieldFor(c) != JobTitleField && FileColumn(FieldFor(c)) < 23
    ensures FileCell(row, c) == Cut(row, FileColumn(FieldFor(c)))
  {}

  lemma DetailCell(row: CsvRow, c: SigningColumn, given: Details)
    requires |row| >= 23 && given[JobTitleField] == Txt("")
    requires FieldFor(c) != DepartmentAbbrField && c != JobTitle ==>
               FileColumn(FieldFor(c)) < 23 && given[FieldFor(c)] == Cut(row, FileColumn(FieldFor(c)))
    ensures CellFor(c, Cut(row, 1), Cut(row, 0), Cut(row, 18), given) == FileCell(row, c)
  {
    if FieldFor(c) != DepartmentAbbrField {
      CellIsDetail(c, Cut(row, 1), Cut(row, 0), Cut(row, 18), given);
      if c != JobTitle { FileCellOfField(row, c); }
    }
  }

  lemma LineCell(row: CsvRow, c: SigningColumn)
    requires |row| >= 23
    ensures CellFor(c, Cut(row, 1), Cut(row, 0), Cut(row, 18), DetailsOf(SigningOf(row))) == FileCell(row, c)
  {
    NoJobTitle(row);
    if FieldFor(c) != DepartmentAbbrField && c != JobTitle {
      FileCellOfField(row, c);
      FieldInFile(row, FieldFor(c));
    }
    DetailCell(row, c, DetailsOf(SigningOf(row)));
  }

  /** The signing row a line gives has every column from its file column. */
  lemma LineIsFiled(row: CsvRow)
    requires |row| >= 23
    ensures FiledFrom(row, Filed(Cut(row, 1), Cut(row, 0), Cut(row, 18), DetailsOf(SigningOf(row))))
  {
    forall c: SigningColumn
      ensures CellFor(c, Cut(row, 1), Cut(row, 0), Cut(row, 18), DetailsOf(SigningOf(row))) == FileCell(row, c)
    {
      LineCell(row, c);
    }
  }
}
