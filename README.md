# pixelgl shader uniform table, in Dafny

This project models the per-canvas shader configuration of pixelgl (`GLShader` in
`pixelgl/glshader.go`). It covers five parts:

- how a Go value passed to `AddUniform` is classified into one of glhf's fourteen
  uniform kinds (`getAttrType`), and whether it was passed by pointer;
- the ordered, name-keyed uniform table, with its linear lookup (`getUniform`) and its
  overwrite-in-place-or-append declaration (`AddUniform`);
- how an entry's current value is resolved (`gsUniformAttr.Value`): a stored snapshot,
  or the live contents of the referenced variable;
- the uniform attribute format that `update` derives from the table before asking the
  driver for a program;
- the four built-in defaults `baseShader` registers by pointer into the shader's own
  storage (`u_transform`, `u_colormask`, `u_bounds`, `u_texbounds`).

Layout:

- `glhf.dfy` (module `Glhf`): uniform kinds, attribute formats, shader handles and the
  driver's answer.
- `mgl32.dfy` (module `Mgl32`): the fourteen accepted Go types. A `Cell` is an
  addressable Go variable: a heap object with a fixed type and mutable contents. `Iface`
  is the `interface{}` argument: a value, a pointer to a `Cell`, a typed nil pointer, or
  anything unsupported. A `TypedValue` has as many components as its type.
- `glshader.dfy` (module `PixelGL`):
  - the classification and the table entry `Uniform` with its `Value()`;
  - the specification functions `Find`, `Declare`, `DeclareAll` and `FormatOf`, with
    lemmas about them;
  - the class `GLShader`: the fields the source updates in place, the `BaseShader`
    constructor, and the methods `GetUniform`, `AddUniform` and `Update`.

A pointer entry holds the `Cell` itself. So "live reference" is a statement about the
heap: `Value()` reads the cell, and assigning to the cell after `AddUniform` changes
what `Value()` returns (`BindThenAssign`).

The panics of `getAttrType` and `update` become error results. `getAttrType`'s
"invalid AttrType" becomes `Err(InvalidAttrType)`, and `AddUniform` then leaves the table
untouched, because the panic comes before any change. `update`'s wrapped driver error
becomes `Fail(ShaderBuild(...))`. At that point the uniform format has already been
rebuilt, but the program field was not reassigned. The panics of `Value()` (a failed type
assertion, the default case, dereferencing a nil pointer) become its `Resolvable()`
precondition instead.

A typed nil pointer such as `(*mgl32.Vec4)(nil)` is its own `Iface` case, `NilPointer`.
`getAttrType` classifies it like any pointer of its type, so `AddUniform` records it, but
such an entry is not `Resolvable()`: `Value()` would panic dereferencing it.

## Model

| member | source | states |
|---|---|---|
| `PixelGL.GetAttrType` | pixelgl/glshader.go:155-216 | A value of an accepted type gives that type's kind with pointer flag false. A pointer of an accepted type, nil or not, gives the same kind with pointer flag true. Any other value (including the untyped nil interface) gives the `InvalidAttrType` error. The kind is recovered from the Go type through the inverse mapping. |
| `PixelGL.KindsCorrespond` | pixelgl/glshader.go:119-212 | The type-switch mapping (Go type to kind) and the `Value()` switch's mapping (kind to asserted pointer type) are inverse bijections over the fourteen kinds. |
| `PixelGL.PointerClassifiedLikeValue` | pixelgl/glshader.go:157-212 | A value of a type and a pointer to a variable of that type get the same kind. Only the pointer flag differs. A nil pointer of that type is classified exactly like a non-nil one. |
| `PixelGL.ClassificationInjective` | pixelgl/glshader.go:157-184 | Values of two different Go types never get the same kind. |
| `PixelGL.Uniform.Value` | pixelgl/glshader.go:113-151 | A snapshot entry returns the stored value unchanged. A pointer entry returns the referenced variable's current contents, typed as the recorded kind's Go type. As a function, it cannot modify the table. |
| `PixelGL.ValueHasRecordedKind` | pixelgl/glshader.go:115-150 | An entry as `AddUniform` records it passes `Value()`'s type assertion, so the panicking default is unreachable; it resolves without a panic exactly when it does not hold a typed nil pointer. The resolved value's kind is the recorded kind. |
| `PixelGL.Find` | pixelgl/glshader.go:62-69 | The index is the first entry with that name. It is -1 exactly when no entry has the name. |
| `PixelGL.GLShader.GetUniform` | pixelgl/glshader.go:62-69 | The search loop returns the first index whose entry has the name, or -1 exactly when none does. This equals `Find` on the table. |
| `PixelGL.Declare` | pixelgl/glshader.go:78-93 | Declaring fails exactly for an unsupported value, and then with `InvalidAttrType`. |
| `PixelGL.DeclareShape` | pixelgl/glshader.go:78-92 | An existing name keeps the table length. A new name adds exactly one entry. The entry at the name's slot carries the new name, kind, pointer flag and value. Every other position keeps its entry. |
| `PixelGL.DeclareLookup` | pixelgl/glshader.go:80-92 | After declaring, looking the name up finds it at its old index, or at the old length for a new name. Looking up any other name gives the same index as before. |
| `PixelGL.DeclarePreservesValid` | pixelgl/glshader.go:80-92 | One declaration keeps names unique and keeps every entry's kind and pointer flag consistent with its value. |
| `PixelGL.DeclareAllPreservesValid` | pixelgl/glshader.go:80-108 | Any sequence of declarations keeps names unique and entries consistent. This holds in particular from the empty table `baseShader` starts with. |
| `PixelGL.GLShader.AddUniform` | pixelgl/glshader.go:78-93 | An unsupported value fails and leaves the table unchanged. An existing name's entry is replaced at the same index, with the same length. A new name is appended at the end, and all prior entries keep their positions and contents. The table invariant is kept. |
| `PixelGL.FormatOf` | pixelgl/glshader.go:37-43 | The uniform format has one element per table entry. |
| `PixelGL.FormatOfAt` | pixelgl/glshader.go:37-43 | The i-th element of the format is the i-th entry's (name, kind), so table order is kept exactly. |
| `PixelGL.FormatAfterDeclare` | pixelgl/glshader.go:37-43 | Redeclaring a name changes the format only at that name's index. Declaring a new name adds its (name, kind) at the end. |
| `PixelGL.GLShader.Update` | pixelgl/glshader.go:36-59 | The uniform format is rebuilt from the table by the loop. A driver success installs the new program. A driver failure fails with the wrapped diagnostic and leaves the program field as it was. |
| `PixelGL.GLShader.BaseShader` | pixelgl/glshader.go:98-111 | The new shader has the given vertex format and sources, four fresh, pairwise distinct, zero-valued default variables, and exactly the four default entries bound by pointer into them. No program is built and the uniform format is empty. |
| `PixelGL.BaseSteps` | pixelgl/glshader.go:105-108 | Each of the four default registrations appends one entry to the table built so far. |
| `PixelGL.BaseShaderDeclarations` | pixelgl/glshader.go:98-111 | The four default registrations from the empty table yield exactly `u_transform` (Mat3), `u_colormask`, `u_bounds` and `u_texbounds` (Vec4) at indices 0-3. All four are pointer-bound, and the table is valid. |
| `PixelGL.BaseOverride` | pixelgl/glshader.go:95-97 | Registering one of the default names again overrides that default at its own index. The table keeps four entries, and the other three are untouched. |
| `PixelGL.BindThenAssign` | examples/shader/exposure/main.go:53-88 | Binding a variable by pointer changes the table exactly as that `AddUniform` does. After assigning to the variable, the entry of that name is found, resolves without a panic, and yields the newly assigned value, with no further `AddUniform`. |

## Left out

- The graphics driver call `glhf.NewShader` and the main-thread marshalling by `mainthread.Call` are left out. `Update` takes the driver as a function parameter from the two formats and two sources to a program or a diagnostic.
- Nothing after a failing `Update` or `AddUniform` is modelled beyond the state at the panic, because in the source the panic ends the caller. No program fallback is modelled, because the source has none.
- The GLSL texts `defaultCanvasVertexShader` and `baseCanvasFragmentShader` are not modelled. They are opaque strings for the driver, so `BaseShader` takes the sources and the vertex format as parameters. `defaultCanvasVertexFormat` is defined in another file, which is not part of this model.
- The float32 and int32 component data is kept abstract, as uninterpreted 32-bit words. No arithmetic on them happens in this core.
- The panics of `Value()` are not modelled as errors: `Value()` requires `Resolvable()` instead. Its type-assertion and default-case panics are reachable only when an entry's recorded kind disagrees with its value; its nil dereference only for an entry holding a typed nil pointer. `ValueHasRecordedKind` proves that an entry `AddUniform` records is resolvable exactly when it does not hold a nil pointer.
- Per-frame upload of resolved values to the GPU is not modelled. It happens in the canvas drawing code, which is not part of this model.
- Which callers invoke `update` after `AddUniform` is not modelled. That is canvas code, not part of this model.
- The demo program's window setup, input, physics and file loading are not modelled. Only its bind-by-pointer-then-assign pattern is modelled, by `BindThenAssign`.
- A `Cell`'s component count is not tied to its type by an invariant. Its constructor and `Set` accept only `TypedValue`s, so only a direct write to the `data` field could break it; nothing in this core reads that count.
