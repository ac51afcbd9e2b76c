/**
  Run-time type classification of JavaScript values (src/utils/type-check.js):
  `getType` reads the class name out of `Object.prototype.toString`, and
  `checkIsType` compares it with a case-insensitive type name.
 */
module TypeCheck {
  import opened JsValue

  /** The `X` of the `[object X]` that `Object.prototype.toString` reports. */
  function ClassName(v: Value): string
  {
    match v
    case Undef => "Undefined"
    case Null => "Null"
    case Bool(_) => "Boolean"
    case Num(_) => "Number"
    case Str(_) => "String"
    case Arr(_) => "Array"
    case Obj(_) => "Object"
    case Date(_, _) => "Date"
    case Fn(_) => "Function"
  }

  /** `Object.prototype.toString.call(v)` */
  function ObjectToString(v: Value): string
  {
    "[object " + ClassName(v) + "]"
  }

  /** `getType`: the lower-cased string, minus its first 8 and its last character. */
  function GetType(v: Value): (r: string)
    ensures r == match v
      case Undef => "undefined"
      case Null => "null"
      case Bool(_) => "boolean"
      case Num(_) => "number"
      case Str(_) => "string"
      case Arr(_) => "array"
      case Obj(_) => "object"
      case Date(_, _) => "date"
      case Fn(_) => "function"
  {
    var t := Lower(ObjectToString(v));
    t[8..|t| - 1]
  }

  /** `checkIsType`: does `v` have the type named by `t`, in any letter case? */
  function CheckIsType(v: Value, t: string): bool
  {
    GetType(v) == Lower(t)
  }

  /** Two values get the same tag exactly when they are built by the same constructor. */
  lemma GetTypeSeparatesKinds(v: Value, w: Value)
    ensures GetType(v) == GetType(w) <==>
      (match v
       case Undef => w.Undef?
       case Null => w.Null?
       case Bool(_) => w.Bool?
       case Num(_) => w.Num?
       case Str(_) => w.Str?
       case Arr(_) => w.Arr?
       case Obj(_) => w.Obj?
       case Date(_, _) => w.Date?
       case Fn(_) => w.Fn?)
  {
  }

  /** A value always has the type its own tag names. */
  lemma CheckIsOwnType(v: Value)
    ensures CheckIsType(v, GetType(v))
  {
  }

  /** The class name `Object.prototype.toString` reports is accepted as the type name. */
  lemma CheckIsClassName(v: Value)
    ensures CheckIsType(v, ClassName(v))
  {
    LowerIdempotent(Lower(ClassName(v)));
  }

  /** `checkIsType(x, 'function')`, the test the engines rely on, holds of functions only. */
  lemma CheckIsFunction(v: Value)
    ensures CheckIsType(v, "function") <==> v.Fn?
  {
    GetTypeSeparatesKinds(v, Fn(""));
  }

  /** The type name may be written in any letter case. */
  lemma CheckIsTypeIgnoresCase(v: Value, t: string, u: string)
    requires Lower(t) == Lower(u)
    ensures CheckIsType(v, t) == CheckIsType(v, u)
  {
  }

  /** In particular, naming the type in capitals matches as well. */
  lemma CheckIsTypeCapitals(s: string)
    ensures CheckIsType(Str(s), "String") && CheckIsType(Str(s), "STRING")
    ensures !CheckIsType(Str(s), "Number")
  {
    assert Lower("Number")[0] == 'n';
  }
}
