/** Small shared vocabulary: optional values, the outcome of a call that may throw,
    and the ASCII character classes the game relies on. */
module Common {

  /** A value that may be absent (a C# null). */
  datatype Option<T> = None | Some(value: T)

  /** The outcome of a call that may raise an exception: a value, or the message of
      the exception that was raised. */
  datatype Reply<T> = Ok(value: T) | Threw(error: string)

  /** `char.ToLower`, restricted to ASCII: 'A'..'Z' map to 'a'..'z', every other
      character is left alone. */
  function Lower(c: char): char
  {
    if 'A' <= c <= 'Z' then (c as int + 32) as char else c
  }

  /** Lower-cases every character of a string. */
  function LowerStr(s: string): (r: string)
    ensures |r| == |s|
    ensures forall i | 0 <= i < |s| :: r[i] == Lower(s[i])
  {
    seq(|s|, i requires 0 <= i < |s| => Lower(s[i]))
  }

  /** True when a string is already in lower case. */
  predicate IsLowerStr(s: string)
  {
    forall i | 0 <= i < |s| :: Lower(s[i]) == s[i]
  }

  lemma LowerStrIsLower(s: string)
    ensures IsLowerStr(LowerStr(s))
    ensures LowerStr(LowerStr(s)) == LowerStr(s)
  {
  }

  lemma LowerStrOfLower(s: string)
    requires IsLowerStr(s)
    ensures LowerStr(s) == s
  {
  }

  lemma LowerStrPrefix(s: string, i: nat)
    requires i < |s|
    ensures LowerStr(s)[..i + 1] == LowerStr(s)[..i] + [Lower(s[i])]
  {
  }

  /** ASCII letters, 'A'..'Z' and 'a'..'z'. */
  predicate IsAsciiLetter(c: char)
  {
    'A' <= c <= 'Z' || 'a' <= c <= 'z'
  }

  /** `char.IsWhiteSpace`: the characters of the Unicode White_Space property. */
  predicate IsWhiteSpace(c: char)
  {
    var n := c as int;
    (9 <= n <= 13) || n == 32 || n == 0x85 || n == 0xA0 || n == 0x1680
    || (0x2000 <= n <= 0x200A) || n == 0x2028 || n == 0x2029 || n == 0x202F
    || n == 0x205F || n == 0x3000
  }

  /** `string.IsNullOrWhiteSpace` for a non-null string: empty or only white space. */
  predicate IsBlank(s: string)
  {
    forall i | 0 <= i < |s| :: IsWhiteSpace(s[i])
  }

  /** `string.Equals(a, b, StringComparison.InvariantCultureIgnoreCase)`, restricted to
      ASCII case folding. */
  predicate EqualsIgnoreCase(a: string, b: string)
  {
    LowerStr(a) == LowerStr(b)
  }

  /** A subset is no larger than its superset. */
  lemma SubsetCard<T>(a: set<T>, b: set<T>)
    requires a <= b
    ensures |a| <= |b|
  {
    assert b == a + (b - a);
  }
}
