/** One decoded CSV data row, as the decoder hands it over: six columns,
    each possibly null. */
module CsvRecords {
  import opened Outcomes

  datatype CsvRecord = CsvRecord(
    title: Option<string>,
    author: Option<string>,
    date: Option<string>,
    views: Option<string>,
    likes: Option<string>,
    link: Option<string>)
}
