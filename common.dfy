/** Shared vocabulary: optional values, results, the dynamically typed values that
    flow through forms and serialized data, and Python truthiness over them. */
module Common {

  datatype Option<+T> = None | Some(value: T)

  datatype Result<+R, +E> = Ok(value: R) | Err(error: E)

  /** A value as it appears in cleaned form data or in serialized model data. */
  datatype Value =
    | VNone
    | VBool(b: bool)
    | VInt(i: int)
    | VStr(s: string)
    | VList(items: seq<Value>)
    | VDict(entries: map<string, Value>)

  /** Python's `bool(v)`: `None`, `False`, `0`, and empty strings, lists and dicts are falsy. */
  predicate Truthy(v: Value)
  {
    match v
    case VNone => false
    case VBool(b) => b
    case VInt(i) => i != 0
    case VStr(s) => s != ""
    case VList(items) => items != []
    case VDict(entries) => |entries| != 0
  }

  /** `all(not d for d in m.values())` */
  predicate AllFalsy(m: map<string, Value>)
  {
    forall k :: k in m ==> !Truthy(m[k])
  }

  /** Python's `sub in s` for strings. */
  predicate ContainsAt(s: string, sub: string, i: nat)
  {
    i + |sub| <= |s| && s[i..i + |sub|] == sub
  }

  ghost predicate Contains(s: string, sub: string)
  {
    exists i: nat :: ContainsAt(s, sub, i)
  }

  /** `"%(" in s`: the marker both handler variants test before interpolating. */
  function HasMarker(s: string): (r: bool)
    ensures r <==> Contains(s, "%(")
    decreases |s|
  {
    if |s| < 2 then
      assert !Contains(s, "%(") by {
        forall i: nat ensures !ContainsAt(s, "%(", i) {}
      }
      false
    else if s[0] == '%' && s[1] == '(' then
      assert ContainsAt(s, "%(", 0);
      true
    else
      var rest := HasMarker(s[1..]);
      if rest then
        var i: nat :| ContainsAt(s[1..], "%(", i);
        assert ContainsAt(s, "%(", i + 1);
        true
      else
        assert !Contains(s, "%(") by {
          forall i: nat | ContainsAt(s, "%(", i) ensures false {
            if i > 0 {
              assert s[1..][i - 1..i - 1 + 2] == s[i..i + 2];
              assert ContainsAt(s[1..], "%(", i - 1);
            }
          }
        }
        false
  }

  /** First index at or after `from` holding `c`. */
  function IndexOf(s: string, c: char, from: nat): (r: Option<nat>)
    ensures r.Some? ==> from <= r.value < |s| && s[r.value] == c
    ensures r.Some? ==> forall k :: from <= k < r.value ==> s[k] != c
    ensures r.None? ==> forall k :: from <= k < |s| ==> s[k] != c
    decreases |s| - from
  {
    if from >= |s| then None
    else if s[from] == c then Some(from)
    else IndexOf(s, c, from + 1)
  }

  /** IndexOf finds the first occurrence. */
  lemma IndexOfFinds(s: string, c: char, from: nat, at: nat)
    requires from <= at < |s| && s[at] == c
    requires forall k :: from <= k < at ==> s[k] != c
    ensures IndexOf(s, c, from) == Some(at)
  {
  }

  /** ASCII upper-casing of one character (Python's `str.upper` on ASCII letters). */
  function UpperChar(c: char): char
  {
    if 'a' <= c <= 'z' then (c as int - 32) as char else c
  }

  /** `s.upper()` for locale codes. */
  function Upper(s: string): (r: string)
    ensures |r| == |s|
    ensures forall i :: 0 <= i < |s| ==> r[i] == UpperChar(s[i])
  {
    seq(|s|, i requires 0 <= i < |s| => UpperChar(s[i]))
  }

  /** No element occurs twice. */
  predicate Distinct<T(==)>(s: seq<T>)
  {
    forall i, j :: 0 <= i < j < |s| ==> s[i] != s[j]
  }
}
