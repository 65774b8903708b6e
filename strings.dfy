/**
 * The three .NET string operations the localization manager relies on:
 * `Trim`, `ToUpperInvariant` and `string.Format` with a single `{0}` argument.
 */
module Strings {

  /** `Char.IsWhiteSpace`: the characters .NET treats as white space. */
  predicate IsWhiteSpace(c: char) {
    || ('\U{0009}' <= c <= '\U{000D}')
    || c == '\U{0020}' || c == '\U{0085}' || c == '\U{00A0}' || c == '\U{1680}'
    || ('\U{2000}' <= c <= '\U{200A}')
    || c == '\U{2028}' || c == '\U{2029}' || c == '\U{202F}' || c == '\U{205F}' || c == '\U{3000}'
  }

  /** `TrimStart()`: drops the maximal white-space prefix and nothing else. */
  function TrimStart(s: string): (r: string)
    ensures |r| <= |s| && r == s[|s| - |r|..]
    ensures forall i :: 0 <= i < |s| - |r| ==> IsWhiteSpace(s[i])
    ensures r == [] || !IsWhiteSpace(r[0])
  {
    if s != [] && IsWhiteSpace(s[0]) then TrimStart(s[1..]) else s
  }

  /** `TrimEnd()`: drops the maximal white-space suffix and nothing else. */
  function TrimEnd(s: string): (r: string)
    ensures |r| <= |s| && r == s[..|r|]
    ensures forall i :: |r| <= i < |s| ==> IsWhiteSpace(s[i])
    ensures r == [] || !IsWhiteSpace(r[|r| - 1])
  {
    if s != [] && IsWhiteSpace(s[|s| - 1]) then TrimEnd(s[..|s| - 1]) else s
  }

  /**
   * `s[a..a + n]` is what is left of `s` once its white space is cut off at both
   * ends: everything before position `a` and everything after `a + n` is white space.
   */
  predicate TrimmedAt(s: string, a: nat, n: nat)
  {
    && a + n <= |s|
    && (forall i :: 0 <= i < a ==> IsWhiteSpace(s[i]))
    && (forall i :: a + n <= i < |s| ==> IsWhiteSpace(s[i]))
  }

  /** `Trim()`: removes white space from both ends, keeping the middle of `s`. */
  function Trim(s: string): (r: string)
    ensures |r| <= |s|
    ensures r == [] || (!IsWhiteSpace(r[0]) && !IsWhiteSpace(r[|r| - 1]))
    ensures r == [] <==> forall i :: 0 <= i < |s| ==> IsWhiteSpace(s[i])
    ensures (s == [] || (!IsWhiteSpace(s[0]) && !IsWhiteSpace(s[|s| - 1]))) ==> r == s
  {
    var t := TrimStart(s);
    assert t != [] ==> t[0] == s[|s| - |t|];
    TrimEnd(t)
  }

  /** What `Trim` returns is the middle of `s`: the slice with only white space around it. */
  lemma TrimKeepsMiddle(s: string)
    ensures var r := Trim(s);
            exists a: nat :: TrimmedAt(s, a, |r|) && forall i :: 0 <= i < |r| ==> r[i] == s[a + i]
  {
    var t := TrimStart(s);
    assert Trim(s) == TrimEnd(t);
    TrimmedMiddle(s, t, TrimEnd(t));
  }

  /** Cutting a white-space prefix and then a white-space suffix leaves a middle slice. */
  lemma {:induction false} TrimmedMiddle(s: string, t: string, r: string)
    requires |t| <= |s| && t == s[|s| - |t|..]
    requires forall i :: 0 <= i < |s| - |t| ==> IsWhiteSpace(s[i])
    requires |r| <= |t| && r == t[..|r|]
    requires forall i :: |r| <= i < |t| ==> IsWhiteSpace(t[i])
    ensures exists a: nat :: TrimmedAt(s, a, |r|) && forall i :: 0 <= i < |r| ==> r[i] == s[a + i]
  {
    var a := |s| - |t|;
    forall i | a + |r| <= i < |s|
      ensures IsWhiteSpace(s[i])
    {
      assert s[i] == t[i - a];
    }
    assert TrimmedAt(s, a, |r|) && forall i :: 0 <= i < |r| ==> r[i] == s[a + i];
  }

  predicate IsLowerAscii(c: char) {
    'a' <= c <= 'z'
  }

  /** `Char.ToUpperInvariant`, restricted to the ASCII letters. */
  function UpperChar(c: char): (u: char)
    ensures IsLowerAscii(c) ==> u as int == c as int - 32
    ensures !IsLowerAscii(c) ==> u == c
    ensures IsWhiteSpace(u) <==> IsWhiteSpace(c)
    ensures !IsLowerAscii(u)
  {
    if IsLowerAscii(c) then (c as int - 32) as char else c
  }

  /** `ToUpperInvariant()`: upper-cases character by character, keeping the length. */
  function ToUpperInvariant(s: string): (r: string)
    ensures |r| == |s|
    ensures forall i :: 0 <= i < |s| ==> r[i] == UpperChar(s[i])
  {
    if s == [] then [] else [UpperChar(s[0])] + ToUpperInvariant(s[1..])
  }

  /** `s` begins with the argument slot `{0}`. */
  predicate StartsWithSlot(s: string) {
    |s| >= 3 && s[0] == '{' && s[1] == '0' && s[2] == '}'
  }

  /** True when `s` has no occurrence of the argument slot `{0}`. */
  predicate NoSlot(s: string) {
    !StartsWithSlot(s) && (s == [] || NoSlot(s[1..]))
  }

  /**
   * `string.Format(format, arg)` for a format whose only placeholder is `{0}`:
   * every `{0}` is replaced by `arg`, every other character is copied.
   */
  function Format(format: string, arg: string): (r: string)
    ensures NoSlot(format) ==> r == format
  {
    if StartsWithSlot(format) then arg + Format(format[3..], arg)
    else if format == [] then []
    else [format[0]] + Format(format[1..], arg)
  }

  /** A character that does not open a slot is copied and formatting goes on after it. */
  lemma FormatCopiesFirst(format: string, arg: string)
    requires format != [] && !StartsWithSlot(format)
    ensures Format(format, arg) == [format[0]] + Format(format[1..], arg)
  {
  }

  /** Putting a slot after a slot-free, non-empty prefix does not create a slot at its start. */
  lemma PrefixOpensNoSlot(prefix: string, rest: string)
    requires prefix != [] && NoSlot(prefix)
    ensures !StartsWithSlot(prefix + "{0}" + rest)
  {
    var format := prefix + "{0}" + rest;
    if |prefix| >= 3 {
      assert format[..3] == prefix[..3];
    } else if |prefix| == 2 {
      assert format[2] == '{';
    } else {
      assert format[1] == '{';
    }
  }

  /** Dropping the first character of a non-empty prefix commutes with appending. */
  lemma DropFirst(prefix: string, middle: string, suffix: string)
    requires prefix != []
    ensures (prefix + middle + suffix)[1..] == prefix[1..] + middle + suffix
    ensures prefix + middle + suffix == [prefix[0]] + (prefix[1..] + middle + suffix)
  {
  }

  /** The slot at the very start of the format. */
  lemma FormatLeadingSlot(suffix: string, arg: string)
    requires NoSlot(suffix)
    ensures Format("{0}" + suffix, arg) == arg + suffix
  {
    assert ("{0}" + suffix)[3..] == suffix;
  }

  /** A format with exactly one slot: the argument lands where the slot was. */
  lemma {:induction false} FormatSingleSlot(prefix: string, suffix: string, arg: string)
    requires NoSlot(prefix) && NoSlot(suffix)
    ensures Format(prefix + "{0}" + suffix, arg) == prefix + arg + suffix
  {
    if prefix == [] {
      assert prefix + "{0}" + suffix == "{0}" + suffix;
      assert prefix + arg + suffix == arg + suffix;
      FormatLeadingSlot(suffix, arg);
    } else {
      PrefixOpensNoSlot(prefix, suffix);
      FormatCopiesFirst(prefix + "{0}" + suffix, arg);
      DropFirst(prefix, "{0}", suffix);
      FormatSingleSlot(prefix[1..], suffix, arg);
      DropFirst(prefix, arg, suffix);
    }
  }

  /** The manager's default missing-key format. */
  const DefaultMissingKeyFormat: string := "[{0}]"

  /** With the default format the placeholder is the key in square brackets. */
  lemma DefaultPlaceholder(key: string)
    ensures Format(DefaultMissingKeyFormat, key) == "[" + key + "]"
  {
    assert DefaultMissingKeyFormat == "[" + "{0}" + "]";
    FormatSingleSlot("[", "]", key);
  }
}
