/** The failures of the preprocessing pipeline and the result type that carries them. */
module Results {

  /** What the pipeline raises, named after the condition that raises it. */
  datatype Error =
    | LabelNotInColumns   // `remove('y')` on a feature list without 'y' (a ValueError)
    | MissingColumn       // selecting a column the table does not have (a KeyError)
    | IndexOutOfRange     // positional row access past either end (an IndexError)

  datatype Result<+T> = Ok(value: T) | Err(error: Error)
}
