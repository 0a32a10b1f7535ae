/** Values a DICOM record holds and the ways a field access can fail. */
module Values {

  datatype Option<+T> = None | Some(value: T)

  /** The exceptions the sorting code distinguishes: a missing attribute
      (Python's AttributeError), a value of the wrong shape for the
      operation applied to it (TypeError, ValueError), a rule set that is
      not a dictionary, and a rule value that could not be filled in from
      the record. */
  datatype Fault = NoAttribute(name: string) | BadValue | InvalidRules | FormatFailed

  datatype Result<+T> = Ok(value: T) | Err(fault: Fault)

  datatype Outcome = Pass | Fail(fault: Fault)

  /** A data element's value: a string, an integer string (IS) already
      converted to a number, or a multi-valued element such as ImageType. */
  datatype Value = Text(s: string) | Number(n: int) | Tags(items: seq<string>)

  /** A parsed record, keyed by the element keyword. */
  type Record = map<string, Value>

  /** Name-by-name lookup of element values, as a template sees them. */
  type Lookup = string -> Result<Value>

  /** An override entry: a fixed value, or one of the built-in computations
      evaluated when the field is looked up. */
  datatype Computation = ImageTypeOf | FileExtensionOf | SeriesDescriptionOf

  datatype Override = Constant(v: Value) | Computed(kind: Computation)

  const PatientBirthDate := "PatientBirthDate"
  const PatientAge := "PatientAge"
  const StudyDate := "StudyDate"
  const SeriesNumber := "SeriesNumber"
  const SeriesDescription := "SeriesDescription"
  const InstanceNumber := "InstanceNumber"
  const ImageType := "ImageType"
  const FileExtension := "FileExtension"
}
