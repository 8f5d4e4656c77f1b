/** The fragment of JavaScript's value and string semantics that the controllers and
    validators depend on: truthiness, property lookup, the `\s` character class,
    `trim`, UTF-16 `length`, ASCII case mapping and `split(' ')`. */
module Js {

  datatype Option<+T> = None | Some(value: T)

  /** A value read from a parsed JSON request body or from a document field.
      `Obj` stands for a plain (non-array) object; `Oid` for a MongoDB ObjectId,
      identified by its lower-case hexadecimal text. */
  datatype Value =
    | Undefined
    | Null
    | Bool(b: bool)
    | Num(x: real)
    | NaN
    | Str(s: string)
    | Obj
    | Oid(hex: string)

  /** JavaScript truthiness: what `if (v)` and `v || w` test. */
  predicate Truthy(v: Value) {
    match v
    case Undefined => false
    case Null => false
    case Bool(b) => b
    case Num(x) => x != 0.0
    case NaN => false
    case Str(s) => s != ""
    case Obj => true
    case Oid(_) => true
  }

  /** `obj[key]` on a body or document: a missing key reads as `undefined`. */
  function Get(obj: map<string, Value>, key: string): Value {
    if key in obj then obj[key] else Undefined
  }

  /** The characters `\s` matches in a JavaScript regular expression (white space
      and line terminators); `String.prototype.trim` strips the same set. */
  predicate IsWhitespace(c: char) {
    var n := c as int;
    n == 0x09 || n == 0x0A || n == 0x0B || n == 0x0C || n == 0x0D || n == 0x20
    || n == 0xA0 || n == 0x1680 || (0x2000 <= n <= 0x200A)
    || n == 0x2028 || n == 0x2029 || n == 0x202F || n == 0x205F || n == 0x3000 || n == 0xFEFF
  }

  /** The characters `\d` matches. */
  predicate IsDigit(c: char) {
    '0' <= c <= '9'
  }

  predicate AllWhitespace(s: string) {
    forall i :: 0 <= i < |s| ==> IsWhitespace(s[i])
  }

  /** `s.trimStart()`. */
  function TrimStart(s: string): (r: string)
    ensures |r| <= |s| && r == s[|s| - |r|..]
    ensures r == "" || !IsWhitespace(r[0])
    ensures AllWhitespace(s[..|s| - |r|])
  {
    if |s| > 0 && IsWhitespace(s[0]) then
      var t := TrimStart(s[1..]);
      assert s[1..][..|s| - 1 - |t|] == s[1..|s| - |t|];
      t
    else
      s
  }

  /** `s.trimEnd()`. */
  function TrimEnd(s: string): (r: string)
    ensures |r| <= |s| && r == s[..|r|]
    ensures r == "" || !IsWhitespace(r[|r| - 1])
    ensures AllWhitespace(s[|r|..])
  {
    if |s| > 0 && IsWhitespace(s[|s| - 1]) then
      var t := TrimEnd(s[..|s| - 1]);
      assert s[|t|..] == s[..|s| - 1][|t|..] + [s[|s| - 1]];
      t
    else
      s
  }

  /** `supplied || current` on a string field. */
  function OrElse(supplied: string, current: string): string {
    if supplied != "" then supplied else current
  }

  /** `s.trim()`. */
  function Trim(s: string): string {
    TrimEnd(TrimStart(s))
  }

  lemma {:induction false} TrimStartOfBlank(s: string)
    requires AllWhitespace(s)
    ensures TrimStart(s) == ""
  {
    if s != [] {
      assert AllWhitespace(s[1..]) by {
        forall i | 0 <= i < |s| - 1 ensures IsWhitespace(s[1..][i]) {
          assert s[1..][i] == s[i + 1];
        }
      }
      TrimStartOfBlank(s[1..]);
    }
  }

  /** `s.trim() === ''` holds exactly when every character of `s` is white space. */
  lemma TrimEmptyIffBlank(s: string)
    ensures Trim(s) == "" <==> AllWhitespace(s)
  {
    if AllWhitespace(s) {
      TrimStartOfBlank(s);
    }
    if Trim(s) == "" {
      var t := TrimStart(s);
      assert t[|TrimEnd(t)|..] == t;
      assert t == "";
      assert s[..|s| - |t|] == s;
    }
  }

  /** The JavaScript `length` of a string: the number of UTF-16 code units, so a
      character outside the Basic Multilingual Plane counts twice. */
  function Utf16Length(s: string): nat {
    if s == [] then 0
    else (if s[0] as int >= 0x10000 then 2 else 1) + Utf16Length(s[1..])
  }

  predicate InBmp(s: string) {
    forall i :: 0 <= i < |s| ==> s[i] as int < 0x10000
  }

  /** The UTF-16 length lies between the number of characters and twice that, and
      equals the number of characters when no character needs a surrogate pair. */
  lemma {:induction false} Utf16LengthBounds(s: string)
    ensures |s| <= Utf16Length(s) <= 2 * |s|
    ensures InBmp(s) ==> Utf16Length(s) == |s|
  {
    if s != [] {
      Utf16LengthBounds(s[1..]);
      assert InBmp(s) ==> InBmp(s[1..]) by {
        if InBmp(s) {
          forall i | 0 <= i < |s[1..]| ensures s[1..][i] as int < 0x10000 {
            assert s[1..][i] == s[i + 1];
          }
        }
      }
    }
  }

  /** `toUpperCase` on one character, for the ASCII letters. */
  function AsciiUpper(c: char): (r: char)
    ensures 'a' <= c <= 'z' ==> 'A' <= r <= 'Z' && r as int == c as int - 32
    ensures !('a' <= c <= 'z') ==> r == c
  {
    if 'a' <= c <= 'z' then (c as int - 32) as char else c
  }

  /** `toLowerCase` on one character, for the ASCII letters. */
  function AsciiLower(c: char): (r: char)
    ensures 'A' <= c <= 'Z' ==> 'a' <= r <= 'z' && r as int == c as int + 32
    ensures !('A' <= c <= 'Z') ==> r == c
  {
    if 'A' <= c <= 'Z' then (c as int + 32) as char else c
  }

  /** `s.toUpperCase()` for strings whose letters are ASCII. */
  function ToUpper(s: string): (r: string)
    ensures |r| == |s|
    ensures forall i :: 0 <= i < |s| ==> r[i] == AsciiUpper(s[i])
  {
    if s == [] then [] else [AsciiUpper(s[0])] + ToUpper(s[1..])
  }

  /** `s.toLowerCase()` for strings whose letters are ASCII. */
  function ToLower(s: string): (r: string)
    ensures |r| == |s|
    ensures forall i :: 0 <= i < |s| ==> r[i] == AsciiLower(s[i])
  {
    if s == [] then [] else [AsciiLower(s[0])] + ToLower(s[1..])
  }

  /** `s.substring(0, n)` for `n >= 0`: the first `n` characters, or all of `s`. */
  function Prefix(s: string, n: nat): (r: string)
    ensures |r| == if n <= |s| then n else |s|
    ensures r == s[..|r|]
  {
    if n <= |s| then s[..n] else s
  }

  /** `s.startsWith(p)`. */
  predicate StartsWith(s: string, p: string) {
    |p| <= |s| && s[..|p|] == p
  }

  /** `s.indexOf(c)` on a string or an array: the first position of `c`, or -1. */
  function IndexOf<T(==)>(s: seq<T>, c: T): (r: int)
    ensures -1 <= r < |s|
    ensures r == -1 <==> c !in s
    ensures r >= 0 ==> s[r] == c && c !in s[..r]
  {
    if s == [] then -1
    else if s[0] == c then 0
    else
      var k := IndexOf(s[1..], c);
      if k == -1 then -1
      else
        assert s[..k + 1] == [s[0]] + s[1..][..k];
        k + 1
  }

  /** `s.split(' ')`: the fields between single spaces, empty fields included. */
  function Split(s: string): (r: seq<string>)
    ensures |r| >= 1
    decreases |s|
  {
    var i := IndexOf(s, ' ');
    if i == -1 then [s] else [s[..i]] + Split(s[i + 1..])
  }

  /** `fields.join(' ')`. */
  function Join(fields: seq<string>): string
    requires |fields| >= 1
  {
    if |fields| == 1 then fields[0] else fields[0] + " " + Join(fields[1..])
  }

  predicate NoSpace(s: string) {
    ' ' !in s
  }

  /** A position holding `c` with no earlier `c` is what `IndexOf` finds. */
  lemma {:induction false} IndexOfFirst<T>(s: seq<T>, c: T, k: nat)
    requires k < |s| && s[k] == c && c !in s[..k]
    ensures IndexOf(s, c) == k
  {
    if k > 0 {
      assert s[0] == s[..k][0];
      assert s[1..][..k - 1] == s[1..k];
      assert forall j :: 0 <= j < k - 1 ==> s[1..k][j] == s[..k][j + 1];
      IndexOfFirst(s[1..], c, k - 1);
    }
  }

  /** Splitting yields space-free fields. */
  lemma {:induction false} SplitFieldsHaveNoSpace(s: string)
    ensures forall k :: 0 <= k < |Split(s)| ==> NoSpace(Split(s)[k])
    decreases |s|
  {
    var i := IndexOf(s, ' ');
    if i != -1 {
      SplitFieldsHaveNoSpace(s[i + 1..]);
    }
  }

  lemma JoinCons(f: string, rest: seq<string>)
    requires |rest| >= 1
    ensures Join([f] + rest) == f + " " + Join(rest)
  {
    assert ([f] + rest)[1..] == rest;
  }

  lemma {:induction false} SplitAtSpace(s: string, i: nat)
    requires i < |s| && IndexOf(s, ' ') == i
    ensures Split(s) == [s[..i]] + Split(s[i + 1..])
  {
  }

  lemma AroundSpace(s: string, i: nat)
    requires i < |s| && s[i] == ' '
    ensures s == s[..i] + " " + s[i + 1..]
  {
    assert s == s[..i] + [s[i]] + s[i + 1..];
  }

  /** Splitting and joining again gives back the original string. */
  lemma {:induction false} JoinSplit(s: string)
    ensures Join(Split(s)) == s
    decreases |s|
  {
    var i := IndexOf(s, ' ');
    if i != -1 {
      SplitAtSpace(s, i);
      AroundSpace(s, i);
      JoinSplit(s[i + 1..]);
      JoinCons(s[..i], Split(s[i + 1..]));
    }
  }

  /** Joining space-free fields and splitting again gives back the same fields, so
      `Split` is exactly the inverse of `Join` on such fields. */
  lemma {:induction false} SplitJoin(fields: seq<string>)
    requires |fields| >= 1
    requires forall k :: 0 <= k < |fields| ==> NoSpace(fields[k])
    ensures Split(Join(fields)) == fields
  {
    var f := fields[0];
    assert NoSpace(f);
    if |fields| == 1 {
      assert IndexOf(f, ' ') == -1;
    } else {
      var rest := Join(fields[1..]);
      var s := f + " " + rest;
      assert s[..|f|] == f;
      IndexOfFirst(s, ' ', |f|);
      assert s[|f| + 1..] == rest;
      SplitJoin(fields[1..]);
      assert fields == [f] + fields[1..];
    }
  }
}
