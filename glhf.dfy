/** The part of the glhf package that the shader uniform table depends on:
    the closed set of uniform kinds, attribute formats, and what the graphics
    driver answers when it is asked to build a shader program. */
module Glhf {

  /** glhf.AttrType: the fourteen kinds a shader uniform can have. The names
      follow glhf (Mat23 is a 2x3 matrix, Mat42 a 4x2 one). */
  datatype AttrType =
    | Int | Float
    | Vec2 | Vec3 | Vec4
    | Mat2 | Mat23 | Mat24
    | Mat3 | Mat32 | Mat34
    | Mat4 | Mat42 | Mat43

  /** glhf.Attr: one named, typed entry of an attribute format. */
  datatype Attr = Attr(name: string, attrType: AttrType)

  /** glhf.AttrFormat: the ordered list of inputs a shader program is linked against. */
  type AttrFormat = seq<Attr>

  /** A compiled and linked shader program (a *glhf.Shader), known only by its handle. */
  datatype Shader = Shader(handle: nat)

  /** What glhf.NewShader gives back: a program, or the driver's diagnostic text. */
  datatype Build = Built(shader: Shader) | Failed(log: string)
}
