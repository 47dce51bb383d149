/** The report structures an analyzer fills: a table with fixed column headers
    and rows appended one at a time, and a titled section holding content. */
module Reports {

  class ReportTable {
    const columns: seq<string>
    var rows: seq<seq<string>>

    constructor (columns: seq<string>)
      ensures this.columns == columns && rows == []
    {
      this.columns := columns;
      rows := [];
    }

    /** `addRow(values...)`: appends one row after the existing ones. */
    method AddRow(values: seq<string>)
      modifies this
      ensures rows == old(rows) + [values]
    {
      rows := rows + [values];
    }
  }

  class ReportSection {
    const title: string
    const description: string
    var content: seq<ReportTable>

    constructor (title: string, description: string)
      ensures this.title == title && this.description == description && content == []
    {
      this.title := title;
      this.description := description;
      content := [];
    }

    /** `add(content)`: appends a table after the section's existing content. */
    method Add(table: ReportTable)
      modifies this
      ensures content == old(content) + [table]
    {
      content := content + [table];
    }
  }
}
