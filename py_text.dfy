/**
 * The few pieces of Python's `str` behaviour the bulletin parser relies on:
 * table cells that are either `None` or text, `str()`, truthiness,
 * `strip()`, `replace()` of one character and `split(sep)[0]`.
 */
module PyText {

  /** A table cell as the layout engine yields it: `None` or a string. */
  datatype Cell = Absent | Text(s: string)

  /** `str(cell)`: Python renders `None` as the four letters "None". */
  function Str(c: Cell): string {
    match c
    case Absent => "None"
    case Text(s) => s
  }

  /** A cell is truthy when it is a non-empty string. */
  predicate Truthy(c: Cell) {
    c.Text? && c.s != ""
  }

  /** The characters for which Python's `str.isspace()` holds. */
  predicate IsSpace(ch: char) {
    var c := ch as int;
    (9 <= c <= 13) || (28 <= c <= 32) || c == 0x85 || c == 0xA0 || c == 0x1680 ||
    (0x2000 <= c <= 0x200A) || c == 0x2028 || c == 0x2029 || c == 0x202F ||
    c == 0x205F || c == 0x3000
  }

  /** Number of whitespace characters at the start of `s`. */
  function LeadLen(s: string): (n: nat)
    ensures n <= |s|
    ensures forall k :: 0 <= k < n ==> IsSpace(s[k])
    ensures n < |s| ==> !IsSpace(s[n])
  {
    if s == [] || !IsSpace(s[0]) then 0 else 1 + LeadLen(s[1..])
  }

  /** Number of whitespace characters at the end of `s`. */
  function TrailLen(s: string): (n: nat)
    ensures n <= |s|
    ensures forall k :: |s| - n <= k < |s| ==> IsSpace(s[k])
    ensures n < |s| ==> !IsSpace(s[|s| - 1 - n])
  {
    if s == [] || !IsSpace(s[|s| - 1]) then 0 else 1 + TrailLen(s[..|s| - 1])
  }

  /** `s.strip()`: `s` without its leading and trailing whitespace. */
  function Strip(s: string): (r: string)
    ensures r == [] <==> forall k :: 0 <= k < |s| ==> IsSpace(s[k])
    ensures r != [] ==> !IsSpace(r[0]) && !IsSpace(r[|r| - 1])
    ensures LeadLen(s) + |r| <= |s| && r == s[LeadLen(s)..LeadLen(s) + |r|]
    ensures forall k :: LeadLen(s) + |r| <= k < |s| ==> IsSpace(s[k])
  {
    var i := LeadLen(s);
    if i == |s| then [] else s[i..|s| - TrailLen(s)]
  }

  /** `s.replace(a, b)` for single characters `a` and `b`. */
  function ReplaceChar(s: string, a: char, b: char): (r: string)
    ensures |r| == |s|
    ensures forall k :: 0 <= k < |s| ==> r[k] == if s[k] == a then b else s[k]
  {
    if s == [] then [] else [if s[0] == a then b else s[0]] + ReplaceChar(s[1..], a, b)
  }

  /** `s.replace(c, "")`: every occurrence of `c` deleted, the rest kept in order. */
  function RemoveChar(s: string, c: char): (r: string)
    ensures c !in r
    ensures |r| <= |s|
  {
    if s == [] then [] else (if s[0] == c then [] else [s[0]]) + RemoveChar(s[1..], c)
  }

  /** `s.split(c)[0]`: the part of `s` before the first `c`, or all of `s`. */
  function BeforeFirst(s: string, c: char): (r: string)
    ensures r <= s
    ensures c !in r
    ensures |r| < |s| ==> s[|r|] == c
  {
    if s == [] || s[0] == c then [] else [s[0]] + BeforeFirst(s[1..], c)
  }

  lemma {:induction false} BeforeFirstAbsent(s: string, c: char)
    requires c !in s
    ensures BeforeFirst(s, c) == s
  {
    if s != [] {
      BeforeFirstAbsent(s[1..], c);
    }
  }

  /** Stripping leaves a string that starts and ends with no whitespace, so
      replacing its newlines by spaces leaves no newline and no whitespace at
      either end. */
  lemma ReplacedStripHasNoNewline(s: string)
    ensures '\n' !in ReplaceChar(Strip(s), '\n', ' ')
    ensures var r := ReplaceChar(Strip(s), '\n', ' ');
      r != [] ==> !IsSpace(r[0]) && !IsSpace(r[|r| - 1])
  {
  }

  /** A string with no whitespace at either end is its own `strip()`. */
  lemma StripUnpadded(s: string)
    requires s != [] && !IsSpace(s[0]) && !IsSpace(s[|s| - 1])
    ensures Strip(s) == s
  {
    assert LeadLen(s) == 0;
    assert TrailLen(s) == 0;
    assert s[0..|s|] == s;
  }

  /** Replacing a character that does not occur changes nothing. */
  lemma ReplaceAbsent(s: string, a: char, b: char)
    requires a !in s
    ensures ReplaceChar(s, a, b) == s
  {
    var r := ReplaceChar(s, a, b);
    assert forall k :: 0 <= k < |s| ==> r[k] == s[k];
  }

  /** Deleting `c` removes every copy of `c` and keeps every other
      character as often as it occurs. */
  lemma {:induction false} RemoveCharMultiset(s: string, c: char)
    ensures multiset(RemoveChar(s, c)) == multiset(s)[c := 0]
  {
    if s != [] {
      var tail := s[1..];
      RemoveCharMultiset(tail, c);
      var h: string := if s[0] == c then [] else [s[0]];
      var r := RemoveChar(tail, c);
      assert RemoveChar(s, c) == h + r;
      assert s == [s[0]] + tail;
      var lhs, rhs := multiset(h + r), multiset(s)[c := 0];
      forall x ensures lhs[x] == rhs[x] {
        assert multiset(s)[x] == multiset([s[0]])[x] + multiset(tail)[x];
      }
      assert lhs == rhs;
    }
  }

  /** Deleting a character works piece by piece: together with
      `RemoveCharMultiset`, this keeps every other character in order. */
  lemma {:induction false} RemoveCharAppend(a: string, b: string, c: char)
    ensures RemoveChar(a + b, c) == RemoveChar(a, c) + RemoveChar(b, c)
  {
    if a != [] {
      assert (a + b)[0] == a[0];
      assert (a + b)[1..] == a[1..] + b;
      RemoveCharAppend(a[1..], b, c);
    } else {
      assert a + b == b;
    }
  }
}
