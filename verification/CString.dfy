/** C strings: byte sequences without the terminating zero, and strcmp on them. */
module CString {
  type Byte = b: int | 0 <= b < 256

  /** A C string holds no zero byte. */
  type Str = seq<Byte>

  /** The sign of strcmp(a, b): bytes compared as unsigned values, the terminator below every byte. */
  function StrCmp(a: Str, b: Str): (c: int)
    ensures -1 <= c <= 1
    ensures c == 0 <==> a == b
  {
    if a == [] then (if b == [] then 0 else -1)
    else if b == [] then 1
    else if a[0] < b[0] then -1
    else if a[0] > b[0] then 1
    else
      assert a == [a[0]] + a[1..] && b == [b[0]] + b[1..];
      StrCmp(a[1..], b[1..])
  }

  /** After a common beginning, the string that ends first or has the smaller byte comes first. */
  lemma {:induction false} StrCmpMeans(p: Str, a: Str, b: Str)
    requires b != [] && (a == [] || a[0] < b[0])
    ensures StrCmp(p + a, p + b) < 0 < StrCmp(p + b, p + a)
  {
    if p == [] {
      assert p + a == a && p + b == b;
    } else {
      StrCmpMeans(p[1..], a, b);
      assert (p + a)[1..] == p[1..] + a && (p + b)[1..] == p[1..] + b;
    }
  }

  lemma {:induction false} StrCmpFlips(a: Str, b: Str)
    ensures StrCmp(b, a) == -StrCmp(a, b)
  {
    if a != [] && b != [] {
      StrCmpFlips(a[1..], b[1..]);
    }
  }

  lemma {:induction false} StrCmpTransitive(a: Str, b: Str, c: Str)
    requires StrCmp(a, b) <= 0 && StrCmp(b, c) <= 0
    ensures StrCmp(a, c) <= 0
    ensures StrCmp(a, b) < 0 || StrCmp(b, c) < 0 ==> StrCmp(a, c) < 0
  {
    if a != [] && b != [] && c != [] && a[0] == b[0] == c[0] {
      StrCmpTransitive(a[1..], b[1..], c[1..]);
    }
  }
}
