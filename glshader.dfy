/** The per-canvas shader configuration of pixelgl: the table of named
    uniforms, how a bound Go value is classified into a uniform kind, how an
    entry's current value is resolved, and the attribute format the table
    contributes to the shader program. */
module PixelGL {
  import Glhf
  import Mgl32

  datatype Option<T> = None | Some(value: T)

  /** The panics of getAttrType and update, modelled as errors (those of
      Value() are excluded by its precondition instead). */
  datatype Error =
    | InvalidAttrType          // getAttrType was given a value of an unsupported type
    | ShaderBuild(message: string)  // the driver rejected the shader program

  datatype Result<T> = Ok(value: T) | Err(error: Error)

  datatype Outcome = Pass | Fail(error: Error)

  /** The context errors.Wrap puts in front of the driver's diagnostic. */
  const ShaderBuildContext: string := "failed to create Canvas, there's a bug in the shader"

  // ---------------------------------------------------------------------
  // Type classification (getAttrType)
  // ---------------------------------------------------------------------

  /** The uniform kind each accepted Go type is classified as. */
  function KindOf(t: Mgl32.GoType): Glhf.AttrType {
    match t
    case Int32 => Glhf.Int
    case Float32 => Glhf.Float
    case Vec2 => Glhf.Vec2
    case Vec3 => Glhf.Vec3
    case Vec4 => Glhf.Vec4
    case Mat2 => Glhf.Mat2
    case Mat2x3 => Glhf.Mat23
    case Mat2x4 => Glhf.Mat24
    case Mat3 => Glhf.Mat3
    case Mat3x2 => Glhf.Mat32
    case Mat3x4 => Glhf.Mat34
    case Mat4 => Glhf.Mat4
    case Mat4x2 => Glhf.Mat42
    case Mat4x3 => Glhf.Mat43
  }

  /** The Go type Value() dereferences a pointer entry as, for each kind. */
  function GoTypeOf(k: Glhf.AttrType): Mgl32.GoType {
    match k
    case Int => Mgl32.Int32
    case Float => Mgl32.Float32
    case Vec2 => Mgl32.Vec2
    case Vec3 => Mgl32.Vec3
    case Vec4 => Mgl32.Vec4
    case Mat2 => Mgl32.Mat2
    case Mat23 => Mgl32.Mat2x3
    case Mat24 => Mgl32.Mat2x4
    case Mat3 => Mgl32.Mat3
    case Mat32 => Mgl32.Mat3x2
    case Mat34 => Mgl32.Mat3x4
    case Mat4 => Mgl32.Mat4
    case Mat42 => Mgl32.Mat4x2
    case Mat43 => Mgl32.Mat4x3
  }

  /** The classification of a type and the kind a Value() switch case expects
      agree: every Go type has exactly one kind and every kind exactly one Go type. */
  lemma KindsCorrespond(t: Mgl32.GoType, k: Glhf.AttrType)
    ensures GoTypeOf(KindOf(t)) == t
    ensures KindOf(GoTypeOf(k)) == k
    ensures KindOf(t) == k <==> GoTypeOf(k) == t
  {
  }

  /** What getAttrType returns: the kind, and whether the value came by pointer. */
  datatype Classification = Classification(attrType: Glhf.AttrType, isPointer: bool)

  /** getAttrType: a value of an accepted type is classified as that type's
      kind and not a pointer; a pointer to a variable of an accepted type as the
      same kind and a pointer (a nil pointer of that type too, since the type
      switch looks only at the type); anything else is the "invalid AttrType" panic. */
  function GetAttrType(v: Mgl32.Iface): (r: Result<Classification>)
    ensures r.Ok? <==> !v.Unsupported?
    ensures v.Unsupported? ==> r == Err(InvalidAttrType)
    ensures v.Direct? ==> !r.value.isPointer && GoTypeOf(r.value.attrType) == v.v.goType
    ensures v.Pointer? ==> r.value.isPointer && GoTypeOf(r.value.attrType) == v.cell.goType
    ensures v.NilPointer? ==> r.value.isPointer && GoTypeOf(r.value.attrType) == v.pointee
  {
    match v
    case Direct(x) => Ok(Classification(KindOf(x.goType), false))
    case Pointer(c) => Ok(Classification(KindOf(c.goType), true))
    case NilPointer(t) => Ok(Classification(KindOf(t), true))
    case Unsupported(_) => Err(InvalidAttrType)
  }

  /** Passing a variable by pointer or passing a value of the same type gives
      the same kind; only the pointer flag differs. A nil pointer of that type
      is classified exactly like a non-nil one. */
  lemma PointerClassifiedLikeValue(c: Mgl32.Cell, x: Mgl32.TypedValue)
    requires x.goType == c.goType
    ensures GetAttrType(Mgl32.Pointer(c)).Ok? && GetAttrType(Mgl32.Direct(x)).Ok?
    ensures GetAttrType(Mgl32.Pointer(c)).value.attrType == GetAttrType(Mgl32.Direct(x)).value.attrType
    ensures GetAttrType(Mgl32.Pointer(c)).value.isPointer && !GetAttrType(Mgl32.Direct(x)).value.isPointer
    ensures GetAttrType(Mgl32.NilPointer(c.goType)) == GetAttrType(Mgl32.Pointer(c))
  {
  }

  /** Values of different Go types are never given the same kind. */
  lemma ClassificationInjective(x: Mgl32.TypedValue, y: Mgl32.TypedValue)
    requires x.goType != y.goType
    ensures GetAttrType(Mgl32.Direct(x)).value.attrType != GetAttrType(Mgl32.Direct(y)).value.attrType
  {
  }

  // ---------------------------------------------------------------------
  // Table entries and value resolution (gsUniformAttr, Value)
  // ---------------------------------------------------------------------

  /** gsUniformAttr: one entry of the uniform table. `value` is what was
      passed to AddUniform, kept as it was passed. */
  datatype Uniform = Uniform(name: string, attrType: Glhf.AttrType, value: Mgl32.Iface, isPointer: bool)
  {
    /** The entry is as AddUniform records it: its kind and pointer flag are
        the classification of its value. */
    predicate WellFormed() {
      GetAttrType(value) == Ok(Classification(attrType, isPointer))
    }

    /** Value() gets through without a panic: a snapshot entry holds a value,
        and a pointer entry holds a non-nil pointer of exactly the type its
        kind's case in the switch asserts. */
    predicate Resolvable() {
      if isPointer then value.Pointer? && value.cell.goType == GoTypeOf(attrType)
      else value.Direct?
    }

    /** The variable a pointer entry refers to; nothing for a snapshot. */
    function Referent(): set<object> {
      if value.Pointer? then {value.cell} else {}
    }

    /** Value(): a snapshot entry gives back the stored value as it was
        passed; a pointer entry gives the referenced variable's contents at
        the time of the call, read as the entry's recorded kind. */
    function Value(): (r: Mgl32.GoValue)
      requires Resolvable()
      reads Referent()
      ensures !isPointer ==> r == value.v
      ensures isPointer ==> r.goType == GoTypeOf(attrType) && r.data == value.cell.data
    {
      if !isPointer then value.v else value.cell.Get()
    }
  }

  /** An entry AddUniform records can be resolved exactly when it does not
      hold a nil pointer (dereferencing that panics), and what it resolves to
      always has the entry's recorded kind. */
  lemma ValueHasRecordedKind(u: Uniform)
    requires u.WellFormed()
    ensures u.Resolvable() <==> !u.value.NilPointer?
    ensures u.Resolvable() ==> KindOf(u.Value().goType) == u.attrType
  {
  }

  // ---------------------------------------------------------------------
  // The name-keyed table (getUniform, AddUniform)
  // ---------------------------------------------------------------------

  /** The index getUniform returns: the first entry with that name, or -1. */
  function Find(us: seq<Uniform>, name: string): (r: int)
    ensures -1 <= r < |us|
    ensures 0 <= r ==> us[r].name == name && forall j :: 0 <= j < r ==> us[j].name != name
    ensures r == -1 <==> forall j :: 0 <= j < |us| ==> us[j].name != name
  {
    if us == [] then -1
    else if us[0].name == name then 0
    else
      var k := Find(us[1..], name);
      assert forall j :: 1 <= j < |us| ==> us[j] == us[1..][j - 1];
      if k == -1 then -1 else k + 1
  }

  /** No name occurs twice in the table. */
  predicate NamesUnique(us: seq<Uniform>) {
    forall i, j :: 0 <= i < j < |us| ==> us[i].name != us[j].name
  }

  /** The table invariant AddUniform keeps. */
  predicate TableValid(us: seq<Uniform>) {
    NamesUnique(us) && forall i :: 0 <= i < |us| ==> us[i].WellFormed()
  }

  /** The table after AddUniform(name, v): the existing entry of that name
      has its kind, pointer flag and value replaced in place, or a new entry
      is appended; an unsupported value panics before the table is touched. */
  function Declare(us: seq<Uniform>, name: string, v: Mgl32.Iface): (r: Result<seq<Uniform>>)
    ensures r.Err? <==> v.Unsupported?
    ensures r.Err? ==> r.error == InvalidAttrType
  {
    match GetAttrType(v)
    case Err(e) => Err(e)
    case Ok(c) =>
      var loc := Find(us, name);
      if loc > -1 then
        Ok(us[loc := us[loc].(name := name, attrType := c.attrType, isPointer := c.isPointer, value := v)])
      else
        Ok(us + [Uniform(name, c.attrType, v, c.isPointer)])
  }

  /** Where the entry for a name lands: at its old position when the name was
      already there, at the end otherwise. */
  function Slot(us: seq<Uniform>, name: string): nat {
    var loc := Find(us, name);
    if loc >= 0 then loc else |us|
  }

  /** After a successful declaration the table has the same length when the
      name existed and one more entry when it did not; the entry at the name's
      slot carries the new name, kind, pointer flag and value; every other
      position keeps its entry. */
  lemma DeclareShape(us: seq<Uniform>, name: string, v: Mgl32.Iface)
    requires !v.Unsupported?
    ensures var r := Declare(us, name, v).value;
      && var c := GetAttrType(v).value;
      && |r| == (if Find(us, name) >= 0 then |us| else |us| + 1)
      && Slot(us, name) < |r|
      && r[Slot(us, name)] == Uniform(name, c.attrType, v, c.isPointer)
      && forall j :: 0 <= j < |us| && j != Slot(us, name) ==> r[j] == us[j]
  {
  }

  /** Looking a name up right after declaring it finds the new entry at the
      name's slot; looking up any other name gives the same index as before. */
  lemma DeclareLookup(us: seq<Uniform>, name: string, v: Mgl32.Iface, other: string)
    requires !v.Unsupported?
    ensures Find(Declare(us, name, v).value, name) == Slot(us, name)
    ensures other != name ==> Find(Declare(us, name, v).value, other) == Find(us, other)
  {
    var r := Declare(us, name, v).value;
    DeclareShape(us, name, v);
    assert forall j :: 0 <= j < |r| ==> (r[j].name == name <==> j == Slot(us, name) || (j < |us| && us[j].name == name));
    if other != name {
      assert forall j :: 0 <= j < |r| ==> (r[j].name == other <==> j < |us| && us[j].name == other);
    }
  }

  /** Declaring keeps the table invariant: names stay unique and every entry
      stays consistent with its value. */
  lemma DeclarePreservesValid(us: seq<Uniform>, name: string, v: Mgl32.Iface)
    requires TableValid(us)
    ensures Declare(us, name, v).Ok? ==> TableValid(Declare(us, name, v).value)
  {
  }

  /** A sequence of AddUniform calls, stopping at the first one that panics. */
  function DeclareAll(us: seq<Uniform>, ds: seq<(string, Mgl32.Iface)>): Result<seq<Uniform>>
    decreases |ds|
  {
    if ds == [] then Ok(us)
    else
      match Declare(us, ds[0].0, ds[0].1)
      case Err(e) => Err(e)
      case Ok(next) => DeclareAll(next, ds[1..])
  }

  /** Any sequence of AddUniform calls keeps names unique and entries
      consistent; in particular, starting from the empty table of a new shader. */
  lemma {:induction false} DeclareAllPreservesValid(us: seq<Uniform>, ds: seq<(string, Mgl32.Iface)>)
    requires TableValid(us)
    ensures DeclareAll(us, ds).Ok? ==> TableValid(DeclareAll(us, ds).value)
    decreases |ds|
  {
    if ds != [] {
      DeclarePreservesValid(us, ds[0].0, ds[0].1);
      var d := Declare(us, ds[0].0, ds[0].1);
      if d.Ok? {
        DeclareAllPreservesValid(d.value, ds[1..]);
      }
    }
  }

  // ---------------------------------------------------------------------
  // The attribute format (first half of update)
  // ---------------------------------------------------------------------

  /** The uniform format update builds: one (name, kind) pair per entry. */
  function FormatOf(us: seq<Uniform>): (f: Glhf.AttrFormat)
    ensures |f| == |us|
  {
    if us == [] then []
    else FormatOf(us[..|us| - 1]) + [Glhf.Attr(us[|us| - 1].name, us[|us| - 1].attrType)]
  }

  /** The format lists the entries in table order, each as its name and kind. */
  lemma {:induction false} FormatOfAt(us: seq<Uniform>, i: nat)
    requires i < |us|
    ensures FormatOf(us)[i] == Glhf.Attr(us[i].name, us[i].attrType)
  {
    if i < |us| - 1 {
      FormatOfAt(us[..|us| - 1], i);
    }
  }

  /** Redeclaring changes the format only at the name's slot, and declaring a
      new name adds its pair at the end. */
  lemma FormatAfterDeclare(us: seq<Uniform>, name: string, v: Mgl32.Iface)
    requires !v.Unsupported?
    ensures var c := GetAttrType(v).value;
      FormatOf(Declare(us, name, v).value) ==
        if Find(us, name) >= 0 then FormatOf(us)[Find(us, name) := Glhf.Attr(name, c.attrType)]
        else FormatOf(us) + [Glhf.Attr(name, c.attrType)]
  {
    var r := Declare(us, name, v).value;
    var c := GetAttrType(v).value;
    DeclareShape(us, name, v);
    var expected := if Find(us, name) >= 0 then FormatOf(us)[Find(us, name) := Glhf.Attr(name, c.attrType)]
                    else FormatOf(us) + [Glhf.Attr(name, c.attrType)];
    forall j | 0 <= j < |r|
      ensures FormatOf(r)[j] == expected[j]
    {
      FormatOfAt(r, j);
      if j < |us| {
        FormatOfAt(us, j);
      }
    }
  }

  // ---------------------------------------------------------------------
  // The built-in defaults (baseShader)
  // ---------------------------------------------------------------------

  /** What baseShader passes to AddUniform, in order: pointers into the
      shader's own default storage. */
  function DefaultBindings(transform: Mgl32.Cell, colormask: Mgl32.Cell, bounds: Mgl32.Cell, texbounds: Mgl32.Cell)
    : seq<(string, Mgl32.Iface)>
  {
    [("u_transform", Mgl32.Pointer(transform)),
     ("u_colormask", Mgl32.Pointer(colormask)),
     ("u_bounds", Mgl32.Pointer(bounds)),
     ("u_texbounds", Mgl32.Pointer(texbounds))]
  }

  /** The table a new shader starts with. */
  function BaseUniforms(transform: Mgl32.Cell, colormask: Mgl32.Cell, bounds: Mgl32.Cell, texbounds: Mgl32.Cell)
    : seq<Uniform>
  {
    [Uniform("u_transform", Glhf.Mat3, Mgl32.Pointer(transform), true),
     Uniform("u_colormask", Glhf.Vec4, Mgl32.Pointer(colormask), true),
     Uniform("u_bounds", Glhf.Vec4, Mgl32.Pointer(bounds), true),
     Uniform("u_texbounds", Glhf.Vec4, Mgl32.Pointer(texbounds), true)]
  }

  /** The default storage has the types of the uniformDefaults fields. */
  predicate DefaultTypes(transform: Mgl32.Cell, colormask: Mgl32.Cell, bounds: Mgl32.Cell, texbounds: Mgl32.Cell) {
    transform.goType == Mgl32.Mat3 && colormask.goType == Mgl32.Vec4 &&
    bounds.goType == Mgl32.Vec4 && texbounds.goType == Mgl32.Vec4
  }

  /** The four AddUniform calls of baseShader, one at a time, starting from
      the empty table: each appends, since each name is new. */
  lemma BaseSteps(transform: Mgl32.Cell, colormask: Mgl32.Cell, bounds: Mgl32.Cell, texbounds: Mgl32.Cell)
    requires DefaultTypes(transform, colormask, bounds, texbounds)
    ensures var b := BaseUniforms(transform, colormask, bounds, texbounds);
      && Declare([], "u_transform", Mgl32.Pointer(transform)) == Ok(b[..1])
      && Declare(b[..1], "u_colormask", Mgl32.Pointer(colormask)) == Ok(b[..2])
      && Declare(b[..2], "u_bounds", Mgl32.Pointer(bounds)) == Ok(b[..3])
      && Declare(b[..3], "u_texbounds", Mgl32.Pointer(texbounds)) == Ok(b)
  {
    var b := BaseUniforms(transform, colormask, bounds, texbounds);
    assert "u_colormask"[2] != "u_transform"[2];
    assert "u_texbounds"[3] != "u_transform"[3];
    assert "u_texbounds"[2] != "u_colormask"[2];
    assert Find([], "u_transform") == -1;
    assert b[..1] == [] + [b[0]];
    assert Find(b[..1], "u_colormask") == -1;
    assert b[..2] == b[..1] + [b[1]];
    assert Find(b[..2], "u_bounds") == -1;
    assert b[..3] == b[..2] + [b[2]];
    assert Find(b[..3], "u_texbounds") == -1;
    assert b == b[..3] + [b[3]];
  }

  /** baseShader yields exactly the four default entries, in order:
      u_transform (Mat3), u_colormask, u_bounds and u_texbounds (Vec4), each
      bound by pointer to its default variable. */
  lemma BaseShaderDeclarations(transform: Mgl32.Cell, colormask: Mgl32.Cell, bounds: Mgl32.Cell, texbounds: Mgl32.Cell)
    requires DefaultTypes(transform, colormask, bounds, texbounds)
    ensures DeclareAll([], DefaultBindings(transform, colormask, bounds, texbounds))
            == Ok(BaseUniforms(transform, colormask, bounds, texbounds))
    ensures TableValid(BaseUniforms(transform, colormask, bounds, texbounds))
  {
    var ds := DefaultBindings(transform, colormask, bounds, texbounds);
    var b := BaseUniforms(transform, colormask, bounds, texbounds);
    BaseSteps(transform, colormask, bounds, texbounds);
    assert DeclareAll(b, ds[4..]) == Ok(b);
    assert DeclareAll(b[..3], ds[3..]) == Ok(b);
    assert DeclareAll(b[..2], ds[2..]) == Ok(b);
    assert DeclareAll(b[..1], ds[1..]) == Ok(b);
    DeclareAllPreservesValid([], ds);
  }

  /** A later AddUniform of one of the default names overrides that default
      at its own index, leaving four entries and the other three untouched. */
  lemma BaseOverride(transform: Mgl32.Cell, colormask: Mgl32.Cell, bounds: Mgl32.Cell, texbounds: Mgl32.Cell,
                     i: nat, v: Mgl32.Iface)
    requires i < 4 && !v.Unsupported?
    ensures var b := BaseUniforms(transform, colormask, bounds, texbounds);
      var c := GetAttrType(v).value;
      Declare(b, b[i].name, v) == Ok(b[i := Uniform(b[i].name, c.attrType, v, c.isPointer)])
  {
  }

  // ---------------------------------------------------------------------
  // The shader configuration object (GLShader)
  // ---------------------------------------------------------------------

  /** GLShader: a canvas's shader program, its sources and formats, its
      uniform table, and the storage its four default uniforms point into. */
  class GLShader {
    var s: Option<Glhf.Shader>
    var vf: Glhf.AttrFormat
    var uf: Glhf.AttrFormat
    var vs: string
    var fs: string
    var uniforms: seq<Uniform>

    // uniformDefaults
    const transform: Mgl32.Cell
    const colormask: Mgl32.Cell
    const bounds: Mgl32.Cell
    const texbounds: Mgl32.Cell

    ghost predicate Valid()
      reads this
    {
      TableValid(uniforms)
    }

    /** baseShader: a shader with the canvas vertex format and sources, zeroed
        default storage, and the four defaults registered by pointer into it.
        No program is built yet. */
    constructor BaseShader(vertexFormat: Glhf.AttrFormat, vertexShader: string, fragmentShader: string)
      ensures Valid()
      ensures fresh(transform) && fresh(colormask) && fresh(bounds) && fresh(texbounds)
      ensures transform != colormask && transform != bounds && transform != texbounds
      ensures colormask != bounds && colormask != texbounds && bounds != texbounds
      ensures DefaultTypes(transform, colormask, bounds, texbounds)
      ensures transform.Get() == Mgl32.Zero(Mgl32.Mat3) && colormask.Get() == Mgl32.Zero(Mgl32.Vec4)
      ensures bounds.Get() == Mgl32.Zero(Mgl32.Vec4) && texbounds.Get() == Mgl32.Zero(Mgl32.Vec4)
      ensures uniforms == BaseUniforms(transform, colormask, bounds, texbounds)
      ensures s == None && uf == [] && vf == vertexFormat && vs == vertexShader && fs == fragmentShader
    {
      s := None;
      vf, uf := vertexFormat, [];
      vs, fs := vertexShader, fragmentShader;
      uniforms := [];
      transform := new Mgl32.Cell(Mgl32.Zero(Mgl32.Mat3));
      colormask := new Mgl32.Cell(Mgl32.Zero(Mgl32.Vec4));
      bounds := new Mgl32.Cell(Mgl32.Zero(Mgl32.Vec4));
      texbounds := new Mgl32.Cell(Mgl32.Zero(Mgl32.Vec4));
      new;
      BaseSteps(transform, colormask, bounds, texbounds);
      var out := AddUniform("u_transform", Mgl32.Pointer(transform));
      out := AddUniform("u_colormask", Mgl32.Pointer(colormask));
      out := AddUniform("u_bounds", Mgl32.Pointer(bounds));
      out := AddUniform("u_texbounds", Mgl32.Pointer(texbounds));
    }

    /** getUniform: the index of the first entry with that name, or -1 when
        there is none. */
    method GetUniform(name: string) returns (loc: int)
      ensures -1 <= loc < |uniforms|
      ensures 0 <= loc ==> uniforms[loc].name == name
      ensures 0 <= loc ==> forall j :: 0 <= j < loc ==> uniforms[j].name != name
      ensures loc == -1 <==> forall j :: 0 <= j < |uniforms| ==> uniforms[j].name != name
      ensures loc == Find(uniforms, name)
    {
      var i := 0;
      while i < |uniforms|
        invariant 0 <= i <= |uniforms|
        invariant forall j :: 0 <= j < i ==> uniforms[j].name != name
      {
        if uniforms[i].name == name {
          return i;
        }
        i := i + 1;
      }
      return -1;
    }

    /** AddUniform: classify the value, then overwrite the entry of that name
        in place or append a new one. An unsupported value panics before the
        table is touched. */
    method AddUniform(name: string, value: Mgl32.Iface) returns (out: Outcome)
      requires Valid()
      modifies this`uniforms
      ensures Valid()
      ensures out == (if value.Unsupported? then Fail(InvalidAttrType) else Pass)
      ensures out.Fail? ==> uniforms == old(uniforms)
      ensures out.Pass? ==> Declare(old(uniforms), name, value) == Ok(uniforms)
      ensures out.Pass? ==>
        var loc := old(Find(uniforms, name));
        var c := GetAttrType(value).value;
        && (loc >= 0 ==> |uniforms| == old(|uniforms|) && uniforms == old(uniforms)[loc := Uniform(name, c.attrType, value, c.isPointer)])
        && (loc == -1 ==> uniforms == old(uniforms) + [Uniform(name, c.attrType, value, c.isPointer)])
    {
      var r := GetAttrType(value);
      if r.Err? {
        return Fail(r.error);
      }
      var t, p := r.value.attrType, r.value.isPointer;
      DeclarePreservesValid(uniforms, name, value);
      var loc := GetUniform(name);
      if loc > -1 {
        uniforms := uniforms[loc := uniforms[loc].(name := name, attrType := t, isPointer := p, value := value)];
        return Pass;
      }
      uniforms := uniforms + [Uniform(name, t, value, p)];
      return Pass;
    }

    /** update: rebuild the uniform format from the table, then ask the driver
        for a program built from the vertex format, the uniform format and the
        two sources. A driver failure is a panic carrying its diagnostic; the
        program is then not replaced. */
    method Update(newShader: (Glhf.AttrFormat, Glhf.AttrFormat, string, string) -> Glhf.Build)
      returns (out: Outcome)
      modifies this`uf, this`s
      ensures uf == FormatOf(uniforms)
      ensures match newShader(vf, uf, vs, fs)
        case Built(program) => out == Pass && s == Some(program)
        case Failed(log) => out == Fail(ShaderBuild(ShaderBuildContext + ": " + log)) && s == old(s)
    {
      uf := [];
      var i := 0;
      while i < |uniforms|
        invariant 0 <= i <= |uniforms|
        invariant uf == FormatOf(uniforms[..i])
        invariant s == old(s)
      {
        assert uniforms[..i + 1][..i] == uniforms[..i];
        uf := uf + [Glhf.Attr(uniforms[i].name, uniforms[i].attrType)];
        i := i + 1;
      }
      assert uniforms[..i] == uniforms;
      var built := newShader(vf, uf, vs, fs);
      match built
      case Failed(log) =>
        return Fail(ShaderBuild(ShaderBuildContext + ": " + log));
      case Built(program) =>
        s := Some(program);
        return Pass;
    }
  }

  // ---------------------------------------------------------------------
  // Live references
  // ---------------------------------------------------------------------

  /** The pattern of binding a variable by pointer and assigning to it later
      (the exposure demo's uTime and uAmount): after the assignment, the
      entry of that name resolves to the newly assigned value, with no
      further AddUniform. */
  method BindThenAssign(gs: GLShader, name: string, cell: Mgl32.Cell, v: Mgl32.TypedValue)
    returns (seen: Mgl32.GoValue)
    requires gs.Valid() && v.goType == cell.goType
    modifies gs`uniforms, cell
    ensures gs.Valid()
    ensures gs.uniforms == Declare(old(gs.uniforms), name, Mgl32.Pointer(cell)).value
    ensures |gs.uniforms| == |old(gs.uniforms)| + (if old(Find(gs.uniforms, name)) >= 0 then 0 else 1)
    ensures cell.Get() == v
    ensures 0 <= Find(gs.uniforms, name)
    ensures gs.uniforms[Find(gs.uniforms, name)].Resolvable()
    ensures gs.uniforms[Find(gs.uniforms, name)].Value() == v
    ensures seen == v
  {
    var _ := gs.AddUniform(name, Mgl32.Pointer(cell));
    cell.Set(v);
    var loc := gs.GetUniform(name);
    DeclareLookup(old(gs.uniforms), name, Mgl32.Pointer(cell), name);
    seen := gs.uniforms[loc].Value();
  }
}
