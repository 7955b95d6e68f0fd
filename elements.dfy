/**
  The values a board holds: elements (one drawable object each) and the
  configuration that bounds them.

  An element is a JavaScript object. Its recognised fields are typed here;
  every other field is opaque payload. A field that the object does not own
  is `Absent`; a raw numeric field is represented by the number the
  validator's coercion reads from it (`None` when that coercion gives NaN).
  */
module Elements {

  datatype Option<+T> = None | Some(value: T)

  /** Whether the object owns the field (`hasOwnProperty`), and its value. */
  datatype Field<+T> = Absent | Present(value: T)

  /** The `_children` field: an array of elements, or some value that is not an array. */
  datatype Children = Items(elems: seq<Element>) | NotArray

  datatype Element = Element(
    size: Field<Option<int>>,     // parseInt of the raw value
    x: Field<Option<real>>,       // parseFloat of the raw value
    y: Field<Option<real>>,       // parseFloat of the raw value
    opacity: Field<Option<real>>, // numeric conversion of the raw value
    children: Field<Children>,
    time: Field<int>,             // integral part of the raw timestamp
    payload: map<string, string>) // every other field, by name, as an opaque value

  /** The configuration options the store reads. */
  datatype Config = Config(
    maxItemCount: nat,
    maxChildren: nat,
    maxBoardSizeX: nat,
    maxBoardSizeY: nat)

  /** A fresh object with no fields at all. */
  const EmptyElement: Element :=
    Element(Absent, Absent, Absent, Absent, Absent, Absent, map[])
}
