/** YAML values as the configuration code sees them. */
module Yaml {
  /** Anything that is not a mapping is a scalar, identified up to Python's `==`. */
  datatype Value = Scalar(id: int) | Mapping(entries: map<string, Value>)
}
