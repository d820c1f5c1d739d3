// The shape of the data that flows through the pipeline: a record is a
// Python dict from keys to JSON-like values, and an operation either returns
// a value or raises one of the exceptions the code can raise.
module Records {

  /** A value stored in a record: the `run_id` string, or a metric number. */
  datatype Value = Text(text: string) | Number(number: real)

  /** One record of the dataset, keyed like the Python dict it models. */
  type Record = map<string, Value>

  /** The exceptions the modelled code raises. */
  datatype Error =
    | HashLengthOutOfRange     // ValueError raised by the hash-length guard
    | MissingKey(key: string)  // KeyError on a dict or CSV-row lookup
    | RunIdNotText             // AttributeError: `split` called on a non-string run_id
    | NotAFloat(text: string)  // ValueError raised by float(...)

  datatype Result<T> = Ok(value: T) | Err(error: Error)

  datatype Option<T> = None | Some(value: T)
}
