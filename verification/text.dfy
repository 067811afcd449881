/**
 The .NET string primitives the validators rely on: white space, the
 null-or-blank tests, `string.Length` (in UTF-16 code units) and the ordinal
 order used to sort names.
 */
module Text {
  import opened Optional

  /** `char.IsWhiteSpace`: the Unicode separators (Zs, Zl, Zp) plus TAB..CR and NEL. */
  predicate IsWhiteSpace(c: char)
  {
    var n := c as int;
    || (0x09 <= n <= 0x0D) || n == 0x20 || n == 0x85 || n == 0xA0 || n == 0x1680
    || (0x2000 <= n <= 0x200A) || n == 0x2028 || n == 0x2029 || n == 0x202F
    || n == 0x205F || n == 0x3000
  }

  /** `string.IsNullOrWhiteSpace`. */
  predicate IsNullOrWhiteSpace(s: Option<string>)
  {
    match s
    case None => true
    case Some(t) => forall i | 0 <= i < |t| :: IsWhiteSpace(t[i])
  }

  /** `string.IsNullOrEmpty`. */
  predicate IsNullOrEmpty(s: Option<string>)
  {
    s.None? || s.value == []
  }

  /**
   `string.Length`: .NET strings are UTF-16, so a character outside the Basic
   Multilingual Plane occupies two code units. SQL Server's `nvarchar(n)`
   counts the same units.
   */
  function Utf16Length(s: string): (n: nat)
    ensures |s| <= n <= 2 * |s|
    ensures n == 0 <==> s == []
  {
    if s == [] then 0
    else (if s[0] as int >= 0x1_0000 then 2 else 1) + Utf16Length(s[1..])
  }

  /** Ordinal order on strings: compare character codes, a proper prefix first. */
  predicate OrdinalLe(a: string, b: string)
  {
    if a == [] then true
    else if b == [] then false
    else if a[0] != b[0] then a[0] < b[0]
    else OrdinalLe(a[1..], b[1..])
  }

  lemma {:induction false} OrdinalLeTotal(a: string, b: string)
    ensures OrdinalLe(a, b) || OrdinalLe(b, a)
  {
    if a != [] && b != [] && a[0] == b[0] {
      OrdinalLeTotal(a[1..], b[1..]);
    }
  }

  lemma {:induction false} OrdinalLeTransitive(a: string, b: string, c: string)
    requires OrdinalLe(a, b) && OrdinalLe(b, c)
    ensures OrdinalLe(a, c)
  {
    if a != [] && b != [] && c != [] && a[0] == b[0] && b[0] == c[0] {
      OrdinalLeTransitive(a[1..], b[1..], c[1..]);
    }
  }

  lemma {:induction false} OrdinalLeAntisymmetric(a: string, b: string)
    requires OrdinalLe(a, b) && OrdinalLe(b, a)
    ensures a == b
  {
    if a != [] && b != [] {
      OrdinalLeAntisymmetric(a[1..], b[1..]);
      assert a == [a[0]] + a[1..];
      assert b == [b[0]] + b[1..];
    }
  }

  /**
   Order of a nullable column under ORDER BY ... ASC: SQL Server puts NULL
   first, then the strings in ordinal order.
   */
  predicate NullsFirstLe(x: Option<string>, y: Option<string>)
  {
    x.None? || (y.Some? && OrdinalLe(x.value, y.value))
  }

  lemma NullsFirstLeTotal(x: Option<string>, y: Option<string>)
    ensures NullsFirstLe(x, y) || NullsFirstLe(y, x)
  {
    if x.Some? && y.Some? {
      OrdinalLeTotal(x.value, y.value);
    }
  }

  lemma NullsFirstLeTransitive(x: Option<string>, y: Option<string>, z: Option<string>)
    requires NullsFirstLe(x, y) && NullsFirstLe(y, z)
    ensures NullsFirstLe(x, z)
  {
    if x.Some? {
      OrdinalLeTransitive(x.value, y.value, z.value);
    }
  }
}
