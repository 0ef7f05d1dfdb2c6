/** The error kinds a load can end with. Every one of them aborts the whole load. */
module LoadErrors {

  /** Why an AD sub-field of a sample column was rejected. */
  datatype AdCause =
    | WrongAdCount(found: int)         // the runtime_error "there should be exactly 2 AD entries"
    | AdCountNotInteger(text: string)  // stoi threw on one of the two counts

  datatype LoadError =
    | BadScientificNotation(text: string, fileName: string)
    | BadConversion(text: string, fileName: string)
    | VcfInvalidHeaderFieldNames(expected: string, actual: string)
    | InvalidSampleInVcf(sampleName: string, fileName: string)
    | VcfVQSLODNotFound(info: string)
    | VcfCoverageFieldNotFound(format: string)
    | VcfBadAdField(ad: string, cause: AdCause)   // "Error parsing vcf AD field", with its cause chained
    | PositionNotInteger(text: string)            // stoi on a VCF POS threw (uncaught in the source)
    | NoDataRows(fileName: string)                // text table without data rows (content_.back() on an empty vector)
    | EmptyInfoRow(row: nat)                      // content_[row][0] on an empty row while building info_
}
