/** JSON values as in section 3 of RFC 8259. Objects are unordered, so they are maps. */
module JsonValues {
  import opened Wrappers

  datatype Number =
    | PosInt(n: nat)
    | NegInt(i: int)
    | Float(r: real)

  datatype Json =
    | Null
    | Bool(b: bool)
    | Num(num: Number)
    | Str(s: string)
    | Arr(items: seq<Json>)
    | Obj(fields: map<string, Json>)

  const I64_MIN: int := -0x8000_0000_0000_0000
  const I64_MAX: int := 0x7fff_ffff_ffff_ffff

  /** The number as a signed 64-bit integer, when it is one. */
  function AsI64(num: Number): (r: Option<int>)
    ensures r.Some? ==> I64_MIN <= r.value <= I64_MAX
  {
    match num
    case PosInt(n) => if n <= I64_MAX then Some(n) else None
    case NegInt(i) => if I64_MIN <= i <= I64_MAX then Some(i) else None
    case Float(_) => None
  }

  predicate IsDigit(c: char) {
    '0' <= c <= '9'
  }

  /** The value of a non-empty run of decimal digits. */
  function DigitsValue(s: string): (r: Option<nat>)
  {
    if s == [] then None
    else
      var last := s[|s| - 1];
      if !IsDigit(last) then None
      else
        var d := last as int - '0' as int;
        if |s| == 1 then Some(d)
        else
          var rest := DigitsValue(s[..|s| - 1]);
          if rest.None? then None else Some(10 * rest.value + d)
  }

  /** Parses an optional sign followed by digits, within the signed 64-bit range. */
  function ParseI64(s: string): (r: Option<int>)
    ensures r.Some? ==> I64_MIN <= r.value <= I64_MAX
  {
    if s == [] then None
    else
      var negative := s[0] == '-';
      var magnitude := DigitsValue(if s[0] == '-' || s[0] == '+' then s[1..] else s);
      if magnitude.None? then None
      else
        var value: int := if negative then 0 - magnitude.value else magnitude.value;
        if I64_MIN <= value <= I64_MAX then Some(value) else None
  }
}
