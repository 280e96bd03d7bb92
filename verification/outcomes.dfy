/** Success values and the error kinds the HealthGuard handlers report. */
module Outcomes {

  datatype Option<+T> = None | Some(value: T)

  /** The three failures the handlers turn into an error response. Only the kind is kept, not
      the reply's message text; `column` records where the cleaning loop stopped. */
  datatype Error =
    | UploadFailed            // `request.files['file']` or `pd.read_csv` raised
    | NoDataUploaded          // `/clean` called while no table is held
    | CleaningFailed(column: string)  // the listed column whose mean could not be taken

  datatype Result<+T> = Ok(value: T) | Err(error: Error)
}
