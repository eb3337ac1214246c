/** One row of the component-position table, already parsed. */
module Components {
  import opened Wrappers

  /** `side` is None when the record carries no side, which placement reads
      as "top". `rotation` is in degrees. */
  datatype Component = Component(
    reference: string,
    value: string,
    package: string,
    x: real,
    y: real,
    rotation: real,
    side: Option<string>)
}
