/** The Go values a uniform can be bound to: int32, float32 and the mgl32
    vector and matrix types, by value or through a pointer to a variable.
    Component data is kept abstract: no arithmetic on it happens in the
    uniform table, so each float32 or int32 component is just its 32 bits. */
module Mgl32 {

  /** The fourteen Go types the uniform table accepts. */
  datatype GoType =
    | Int32 | Float32
    | Vec2 | Vec3 | Vec4
    | Mat2 | Mat2x3 | Mat2x4
    | Mat3 | Mat3x2 | Mat3x4
    | Mat4 | Mat4x2 | Mat4x3

  /** Number of 32-bit components in a value of each type (mgl32.Mat2x3 is a [6]float32). */
  function ComponentCount(t: GoType): nat {
    match t
    case Int32 => 1
    case Float32 => 1
    case Vec2 => 2
    case Vec3 => 3
    case Vec4 => 4
    case Mat2 => 4
    case Mat2x3 => 6
    case Mat2x4 => 8
    case Mat3 => 9
    case Mat3x2 => 6
    case Mat3x4 => 12
    case Mat4 => 16
    case Mat4x2 => 8
    case Mat4x3 => 12
  }

  type Components = seq<bv32>

  /** A value of one of the accepted types, with its raw components. */
  datatype GoValue = GoValue(goType: GoType, data: Components)
  {
    /** The value has as many components as its type has (Go's typing guarantees this). */
    predicate WellTyped() {
      |data| == ComponentCount(goType)
    }
  }

  /** The values Go can actually form. */
  type TypedValue = v: GoValue | v.WellTyped() witness GoValue(Int32, [0])

  /** Go's zero value of a type: every component zero. */
  function Zero(t: GoType): TypedValue {
    GoValue(t, seq(ComponentCount(t), _ => 0))
  }

  /** An addressable Go variable of one of the accepted types. Its type is
      fixed when it is declared; its contents change whenever the program
      assigns to it. */
  class Cell {
    const goType: GoType
    var data: Components

    constructor (v: TypedValue)
      ensures goType == v.goType && data == v.data
    {
      goType := v.goType;
      data := v.data;
    }

    /** `*p`: the variable's current value. */
    function Get(): GoValue
      reads this
    {
      GoValue(goType, data)
    }

    /** `*p = v`: assignment, which Go's typing restricts to values of the variable's type. */
    method Set(v: TypedValue)
      requires v.goType == goType
      modifies this
      ensures Get() == v
    {
      data := v.data;
    }
  }

  /** The interface{} argument of AddUniform: a value of an accepted type,
      a pointer to a variable of an accepted type, a nil pointer of one of
      those pointer types (such as `(*mgl32.Vec4)(nil)`), or anything else
      (another type, a pointer to another type, the untyped nil interface). */
  datatype Iface =
    | Direct(v: TypedValue)
    | Pointer(cell: Cell)
    | NilPointer(pointee: GoType)
    | Unsupported(typeName: string)
}
