/** The PHP values that flow through configuration, lock data and the asset
    manifest: JSON-decoded documents are nested associative arrays. */
module PhpValue {
  import opened Wrappers
  import Strings
  import OrderedMap

  datatype Value =
    | Null
    | Bool(b: bool)
    | Int(i: int)
    | Str(s: string)
    | Arr(entries: OrderedMap.Entries<Value>)

  /** PHP truthiness, as used by `if ($v)`, `!$v` and `empty($v)`. */
  predicate Truthy(v: Value) {
    match v
    case Null => false
    case Bool(b) => b
    case Int(i) => i != 0
    case Str(s) => s != "" && s != "0"
    case Arr(e) => |e| > 0
  }

  /** `isset($m[$k])`: the key exists and does not hold `null`. */
  predicate IsSet(m: OrderedMap.Entries<Value>, k: string) {
    var r := OrderedMap.Get(m, k);
    r.Some? && r.value != Null
  }

  /** The string a value converts to in a concatenation. An array converts
      with the "Array to string conversion" warning, which Composer's error
      handler raises. */
  function ToStr(v: Value): Result<string> {
    match v
    case Null => Success("")
    case Bool(b) => Success(if b then "1" else "")
    case Int(i) => Success(Strings.IntToString(i))
    case Str(s) => Success(s)
    case Arr(_) => Failure(ErrorException("Array to string conversion"))
  }

  /** The string `trim($v)` works on: a scalar or null converts as in a
      concatenation (null with a deprecation notice, which Composer's error
      handler does not raise); an array is rejected with a type error. */
  function TrimArgument(v: Value): (r: Result<string>)
    ensures r.Failure? <==> v.Arr?
    ensures r.Success? ==> r == ToStr(v)
  {
    if v.Arr? then Failure(TypeError("trim(): Argument #1 ($string) must be of type string, array given"))
    else ToStr(v)
  }

  /** The array key a value stands for in `$a[$v]` or `array_key_exists($v, $a)`. */
  function ToKey(v: Value): (r: Result<string>)
    ensures r.Success? <==> !v.Arr?
  {
    match v
    case Null => Success("")
    case Bool(b) => Success(if b then "1" else "0")
    case Int(i) => Success(Strings.IntToString(i))
    case Str(s) => Success(s)
    case Arr(_) => Failure(TypeError("Illegal offset type"))
  }

  /** The type name PHP's messages use for a value. */
  function TypeName(v: Value): string {
    match v
    case Null => "null"
    case Bool(_) => "bool"
    case Int(_) => "int"
    case Str(_) => "string"
    case Arr(_) => "array"
  }

  /** A named offset of a string, read or written, is rejected. */
  const StringOffset: Error := TypeError("Cannot access offset of type string on string")

  /** `$v[$k]` read as a value: a missing key of an array and any offset of
      null, a boolean or an integer draw a warning, which Composer's error
      handler raises. */
  function Offset(v: Value, k: string): (r: Result<Value>)
    ensures r.Success? <==> v.Arr? && OrderedMap.Get(v.entries, k).Some?
    ensures r.Success? ==> r.value == OrderedMap.Get(v.entries, k).value
    ensures v.Arr? && r.Failure? ==> r.error == ErrorException("Undefined array key \"" + k + "\"")
    ensures v.Str? ==> r == Failure(StringOffset)
    ensures !v.Arr? && !v.Str? ==> r == Failure(ErrorException("Trying to access array offset on value of type " + TypeName(v)))
  {
    match v
    case Arr(e) =>
      (match OrderedMap.Get(e, k)
       case Some(x) => Success(x)
       case None => Failure(ErrorException("Undefined array key \"" + k + "\"")))
    case Str(_) => Failure(StringOffset)
    case _ => Failure(ErrorException("Trying to access array offset on value of type " + TypeName(v)))
  }

  /** The entries `foreach ($v as $k => $x)` walks: those of an array.
      Anything else draws the "foreach() argument must be of type
      array|object" warning, which Composer's error handler raises. */
  function Foreach(v: Value): (r: Result<OrderedMap.Entries<Value>>)
    ensures r.Success? <==> v.Arr?
    ensures r.Success? ==> r.value == v.entries
    ensures r.Failure? ==> r.error == ErrorException("foreach() argument must be of type array|object, " + TypeName(v) + " given")
  {
    if v.Arr? then Success(v.entries)
    else Failure(ErrorException("foreach() argument must be of type array|object, " + TypeName(v) + " given"))
  }

  /** The cast `(array) $v`. */
  function ToArray(v: Value): (r: OrderedMap.Entries<Value>)
    ensures v.Arr? ==> r == v.entries
    ensures v.Null? ==> r == []
    ensures !v.Arr? && !v.Null? ==> r == [("0", v)]
  {
    match v
    case Null => []
    case Arr(e) => e
    case _ => [("0", v)]
  }
}
