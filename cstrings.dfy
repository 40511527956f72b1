/** NUL-terminated character strings (`const char*`) and `strings_equal`, the recursive
    character-by-character comparison used to match enumerator names. */
module CStrings {
  /** A pointer to a C string may be read up to its first NUL, which always exists. */
  predicate IsCString(s: seq<char>) {
    '\0' in s
  }

  /** The literal `"text"`: its characters and the terminating NUL. */
  function Literal(text: string): (s: seq<char>)
    ensures |s| == |text| + 1 && s[..|text|] == text && s[|text|] == '\0' && IsCString(s)
  {
    text + ['\0']
  }

  /** The index of the first NUL. */
  function NulIndex(s: seq<char>): (i: nat)
    requires IsCString(s)
    ensures i < |s| && s[i] == '\0' && forall j :: 0 <= j < i ==> s[j] != '\0'
  {
    if s[0] == '\0' then 0 else assert '\0' in s[1..]; 1 + NulIndex(s[1..])
  }

  /** The text a C string holds. */
  function Text(s: seq<char>): string
    requires IsCString(s)
  {
    s[..NulIndex(s)]
  }

  /** `strings_equal(a, b)`: `*a == *b && (*a == '\0' || strings_equal(a + 1, b + 1))`. */
  function StringsEqual(a: seq<char>, b: seq<char>): bool
    requires IsCString(a) && IsCString(b)
    decreases |a|
  {
    a[0] == b[0] &&
    (a[0] == '\0' || (assert '\0' in a[1..] && '\0' in b[1..]; StringsEqual(a[1..], b[1..])))
  }

  /** `strings_equal` holds exactly when the two strings agree up to and including the first NUL,
      that is when they hold the same text. */
  lemma {:induction false} StringsEqualIsTextEquality(a: seq<char>, b: seq<char>)
    requires IsCString(a) && IsCString(b)
    ensures StringsEqual(a, b) <==> Text(a) == Text(b)
    decreases |a|
  {
    if a[0] == '\0' || b[0] == '\0' {
      assert NulIndex(a) == 0 || Text(a)[0] == a[0];
      assert NulIndex(b) == 0 || Text(b)[0] == b[0];
    } else if a[0] != b[0] {
      assert Text(a)[0] != Text(b)[0];
    } else {
      assert '\0' in a[1..] && '\0' in b[1..];
      StringsEqualIsTextEquality(a[1..], b[1..]);
      assert Text(a) == [a[0]] + Text(a[1..]);
      assert Text(b) == [b[0]] + Text(b[1..]);
    }
  }

  /** The text of a literal is the literal's text, when that text holds no NUL of its own. */
  lemma LiteralText(text: string)
    requires '\0' !in text
    ensures Text(Literal(text)) == text
  {
    var s := Literal(text);
    assert forall j :: 0 <= j < |text| ==> s[j] == text[j];
    assert NulIndex(s) == |text|;
  }
}
