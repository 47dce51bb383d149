/** The "JAR Files" report section: one row per JAR of the classpath, in
    classpath order, giving its name, formatted size and class count, followed by
    a totals row. `formatFileSize` is `FileUtils.formatFileSize`. */
module JarFilesListAnalyzers {
  import opened JavaStrings
  import opened JarModel
  import opened Classpaths
  import opened Reports

  const Columns: seq<string> := ["JAR file", "Size", "Java class files"]
  const Title := "JAR Files"
  const Description := "List of JAR files found in classpath."
  const TotalsLabel := "Classpath"

  // ---------------------------------------------------------------------------
  // Specification

  /** The sum of the file sizes. */
  function TotalFileSize(jarFiles: seq<JarFile>): int {
    if |jarFiles| == 0 then 0
    else TotalFileSize(jarFiles[..|jarFiles| - 1]) + jarFiles[|jarFiles| - 1].fileSize
  }

  /** The sum of the class counts. */
  function TotalClassCount(jarFiles: seq<JarFile>): nat {
    if |jarFiles| == 0 then 0
    else TotalClassCount(jarFiles[..|jarFiles| - 1]) + |jarFiles[|jarFiles| - 1].classDefs|
  }

  function JarRow(formatFileSize: int -> string, jarFile: JarFile): seq<string> {
    [jarFile.fileName, formatFileSize(jarFile.fileSize), NatToString(|jarFile.classDefs|)]
  }

  /** One row per JAR, in classpath order. */
  function JarRows(formatFileSize: int -> string, jarFiles: seq<JarFile>): (r: seq<seq<string>>)
    ensures |r| == |jarFiles|
    ensures forall i :: 0 <= i < |r| ==> r[i] == JarRow(formatFileSize, jarFiles[i])
  {
    if |jarFiles| == 0 then []
    else
      JarRows(formatFileSize, jarFiles[..|jarFiles| - 1]) + [JarRow(formatFileSize, jarFiles[|jarFiles| - 1])]
  }

  function TotalsRow(formatFileSize: int -> string, jarFiles: seq<JarFile>): seq<string> {
    [TotalsLabel, formatFileSize(TotalFileSize(jarFiles)), NatToString(TotalClassCount(jarFiles))]
  }

  /** All rows of the table. */
  function Rows(formatFileSize: int -> string, jarFiles: seq<JarFile>): seq<seq<string>> {
    JarRows(formatFileSize, jarFiles) + [TotalsRow(formatFileSize, jarFiles)]
  }

  // ---------------------------------------------------------------------------
  // The analyzer

  /** `buildTable(classpath)` */
  method BuildTable(formatFileSize: int -> string, classpath: Classpath) returns (table: ReportTable)
    ensures fresh(table)
    ensures table.columns == Columns
    ensures table.rows == Rows(formatFileSize, classpath.jarFiles)
  {
    table := new ReportTable(Columns);
    var totalFileSize := 0;
    var totalClassCount := 0;
    var jarFiles := classpath.GetJarFiles();
    for i := 0 to |jarFiles|
      invariant table.rows == JarRows(formatFileSize, jarFiles[..i])
      invariant totalFileSize == TotalFileSize(jarFiles[..i])
      invariant totalClassCount == TotalClassCount(jarFiles[..i])
    {
      assert jarFiles[..i + 1][..i] == jarFiles[..i];
      var jarFile := jarFiles[i];
      var fileName := jarFile.fileName;
      var fileSize := jarFile.fileSize;
      var classCount := |jarFile.classDefs|;
      table.AddRow([fileName, formatFileSize(fileSize), NatToString(classCount)]);
      totalFileSize := totalFileSize + fileSize;
      totalClassCount := totalClassCount + classCount;
    }
    assert jarFiles[..|jarFiles|] == jarFiles;
    table.AddRow([TotalsLabel, formatFileSize(totalFileSize), NatToString(totalClassCount)]);
  }

  /** `analyze(classpath)`: a section titled "JAR Files" holding the one table. */
  method Analyze(formatFileSize: int -> string, classpath: Classpath) returns (section: ReportSection)
    ensures fresh(section)
    ensures section.title == Title && section.description == Description
    ensures |section.content| == 1
    ensures section.content[0].columns == Columns
    ensures section.content[0].rows == Rows(formatFileSize, classpath.jarFiles)
  {
    var table := BuildTable(formatFileSize, classpath);
    section := new ReportSection(Title, Description);
    section.Add(table);
  }

  // ---------------------------------------------------------------------------
  // Properties

  /** The row count is one more than the number of JARs, every row has one value
      per column, the first rows follow the classpath and the last is the totals row. */
  lemma RowsShape(formatFileSize: int -> string, jarFiles: seq<JarFile>)
    ensures var rows := Rows(formatFileSize, jarFiles);
      && |rows| == |jarFiles| + 1
      && (forall i :: 0 <= i < |rows| ==> |rows[i]| == |Columns|)
      && (forall i :: 0 <= i < |jarFiles| ==>
            rows[i] == [jarFiles[i].fileName, formatFileSize(jarFiles[i].fileSize), NatToString(|jarFiles[i].classDefs|)])
      && rows[|jarFiles|] ==
            [TotalsLabel, formatFileSize(TotalFileSize(jarFiles)), NatToString(TotalClassCount(jarFiles))]
  {
  }

  /** An empty classpath gives the totals row alone, built from 0 bytes and 0 classes. */
  lemma EmptyClasspathRows(formatFileSize: int -> string)
    ensures Rows(formatFileSize, []) == [[TotalsLabel, formatFileSize(0), "0"]]
  {
  }

  /** The sum of the decimal numbers in the class-count column of `rows`. */
  function ClassCountColumnSum(rows: seq<seq<string>>): nat
    requires forall i :: 0 <= i < |rows| ==> |rows[i]| == 3 && IsDecimal(rows[i][2])
  {
    if |rows| == 0 then 0
    else ClassCountColumnSum(rows[..|rows| - 1]) + DecimalValue(rows[|rows| - 1][2])
  }

  /** The totals row's class count is the sum of the class counts shown in the rows above it. */
  lemma {:induction false} TotalClassCountIsColumnSum(formatFileSize: int -> string, jarFiles: seq<JarFile>)
    ensures var rows := JarRows(formatFileSize, jarFiles);
      (forall i :: 0 <= i < |rows| ==> |rows[i]| == 3 && IsDecimal(rows[i][2])) &&
      ClassCountColumnSum(rows) == DecimalValue(TotalsRow(formatFileSize, jarFiles)[2])
  {
    var rows := JarRows(formatFileSize, jarFiles);
    DecimalValueOfNatToString(TotalClassCount(jarFiles));
    if |jarFiles| > 0 {
      var init := jarFiles[..|jarFiles| - 1];
      TotalClassCountIsColumnSum(formatFileSize, init);
      DecimalValueOfNatToString(TotalClassCount(init));
      DecimalValueOfNatToString(|jarFiles[|jarFiles| - 1].classDefs|);
      assert rows[..|rows| - 1] == JarRows(formatFileSize, init);
    }
  }

  /** The totals are additive: the totals of a classpath split in two are the
      sums of the totals of the parts. */
  lemma {:induction false} TotalsConcat(a: seq<JarFile>, b: seq<JarFile>)
    ensures TotalFileSize(a + b) == TotalFileSize(a) + TotalFileSize(b)
    ensures TotalClassCount(a + b) == TotalClassCount(a) + TotalClassCount(b)
  {
    if |b| == 0 {
      assert a + b == a;
    } else {
      var bi := b[..|b| - 1];
      assert (a + b)[..|a + b| - 1] == a + bi;
      TotalsConcat(a, bi);
    }
  }
}
