/**
 * The symbol table of glu32.dll: for every export the binding cache may bind,
 * the native signature it is bound with (argument kinds in order, return kind).
 * Authored data; nothing in the system changes it.
 */
module SymbolTable {
  import opened Ffi

  const Symbols: map<Name, Signature> := map[
    "gluBeginCurve" := Signature([Ptr], Void),
    "gluBeginPolygon" := Signature([Ptr], Void),
    "gluBeginSurface" := Signature([Ptr], Void),
    "gluBeginTrim" := Signature([Ptr], Void),
    "gluBuild1DMipmaps" := Signature([U32, I32, I32, U32, U32, Ptr], I32),
    "gluBuild2DMipmaps" := Signature([U32, I32, I32, I32, U32, U32, Ptr], I32),
    "gluCylinder" := Signature([Ptr, F64, F64, F64, I32, I32], Void),
    "gluDeleteNurbsRenderer" := Signature([Ptr], Void),
    "gluDeleteQuadric" := Signature([Ptr], Void),
    "gluDeleteTess" := Signature([Ptr], Void),
    "gluDisk" := Signature([Ptr, F64, F64, I32, I32], Void),
    "gluEndCurve" := Signature([Ptr], Void),
    "gluEndPolygon" := Signature([Ptr], Void),
    "gluEndSurface" := Signature([Ptr], Void),
    "gluEndTrim" := Signature([Ptr], Void),
    "gluErrorString" := Signature([U32], Ptr),
    "gluErrorUnicodeStringEXT" := Signature([U32], Ptr),
    "gluGetNurbsProperty" := Signature([Ptr, U32, Ptr], Void),
    "gluGetString" := Signature([U32], Ptr),
    "gluGetTessProperty" := Signature([Ptr, U32, Ptr], Void),
    "gluLoadSamplingMatrices" := Signature([Ptr, Ptr, Ptr, Ptr], Void),
    "gluLookAt" := Signature([F64, F64, F64, F64, F64, F64, F64, F64, F64], Void),
    "gluNewNurbsRenderer" := Signature([], Ptr),
    "gluNewQuadric" := Signature([], Ptr),
    "gluNewTess" := Signature([], Ptr),
    "gluNextContour" := Signature([Ptr, U32], Void),
    "gluNurbsCallback" := Signature([Ptr, U32, Ptr], Void),
    "gluNurbsCurve" := Signature([Ptr, I32, Ptr, I32, Ptr, I32, U32], Void),
    "gluNurbsProperty" := Signature([Ptr, U32, F32], Void),
    "gluNurbsSurface" := Signature([Ptr, I32, Ptr, I32, Ptr, I32, I32, Ptr, I32, I32, U32], Void),
    "gluOrtho2D" := Signature([F64, F64, F64, F64], Void),
    "gluPartialDisk" := Signature([Ptr, F64, F64, I32, I32, F64, F64], Void),
    "gluPerspective" := Signature([F64, F64, F64, F64], Void),
    "gluPickMatrix" := Signature([F64, F64, F64, F64, Ptr], Void),
    "gluProject" := Signature([F64, F64, F64, Ptr, Ptr, Ptr, Ptr, Ptr, Ptr], I32),
    "gluPwlCurve" := Signature([Ptr, I32, Ptr, I32, U32], Void),
    "gluQuadricCallback" := Signature([Ptr, U32, Ptr], Void),
    "gluQuadricDrawStyle" := Signature([Ptr, U32], Void),
    "gluQuadricNormals" := Signature([Ptr, U32], Void),
    "gluQuadricOrientation" := Signature([Ptr, U32], Void),
    "gluQuadricTexture" := Signature([Ptr, U8], Void),
    "gluScaleImage" := Signature([U32, I32, I32, U32, Ptr, I32, I32, U32, Ptr], I32),
    "gluSphere" := Signature([Ptr, F64, I32, I32], Void),
    "gluTessBeginContour" := Signature([Ptr], Void),
    "gluTessBeginPolygon" := Signature([Ptr, Ptr], Void),
    "gluTessCallback" := Signature([Ptr, U32, Ptr], Void),
    "gluTessEndContour" := Signature([Ptr], Void),
    "gluTessEndPolygon" := Signature([Ptr], Void),
    "gluTessNormal" := Signature([Ptr, F64, F64, F64], Void),
    "gluTessProperty" := Signature([Ptr, U32, F64], Void),
    "gluTessVertex" := Signature([Ptr, Ptr, Ptr], Void),
    "gluUnProject" := Signature([F64, F64, F64, Ptr, Ptr, Ptr, Ptr, Ptr, Ptr], I32)
  ]
}
