/**
 * The three pieces of JavaScript string semantics the page script relies on:
 * the `\s` character class, `String.prototype.trim`, and `length`.
 *
 * A Dafny `char` is a Unicode scalar value, while a JavaScript string is a
 * sequence of UTF-16 code units. Every whitespace character is in the Basic
 * Multilingual Plane, so `\s` and `trim` read the same either way; `length`
 * does not, and is modelled explicitly by `Utf16Length`.
 */
module JsText {

  /**
   * `\s` of an ECMAScript regular expression, which is also the set of code
   * points `trim` removes: the WhiteSpace and LineTerminator productions of
   * ECMA-262 (sections 12.2 and 12.3). WhiteSpace includes every code point of
   * Unicode general category Zs; this model lists the Zs code points of the
   * current Unicode version explicitly instead of consulting a Unicode table.
   */
  predicate IsSpace(c: char)
    ensures IsSpace(c) ==> c as int <= 0xFFFF
  {
    var n := c as int;
    || n == 0x09 || n == 0x0A || n == 0x0B || n == 0x0C || n == 0x0D  // TAB LF VT FF CR
    || n == 0x20 || n == 0xA0 || n == 0x1680                         // SP NBSP OGHAM SPACE MARK
    || (0x2000 <= n <= 0x200A)                                       // EN QUAD .. HAIR SPACE
    || n == 0x2028 || n == 0x2029                                    // LS PS
    || n == 0x202F || n == 0x205F || n == 0x3000                     // NNBSP MMSP IDEOGRAPHIC SPACE
    || n == 0xFEFF                                                   // ZWNBSP
  }

  predicate AllSpace(s: string) {
    forall k :: 0 <= k < |s| ==> IsSpace(s[k])
  }

  predicate NoSpace(s: string) {
    forall k :: 0 <= k < |s| ==> !IsSpace(s[k])
  }

  /** True when every character of s fits in one UTF-16 code unit. */
  predicate InBmp(s: string) {
    forall k :: 0 <= k < |s| ==> s[k] as int <= 0xFFFF
  }

  /** JavaScript's `s.length`: code points above U+FFFF take a surrogate pair. */
  function Utf16Length(s: string): (n: nat)
    ensures |s| <= n <= 2 * |s|
    ensures n == |s| <==> InBmp(s)
  {
    if s == [] then 0
    else
      var rest := Utf16Length(s[1..]);
      assert InBmp(s) <==> s[0] as int <= 0xFFFF && InBmp(s[1..]) by {
        if s[0] as int <= 0xFFFF && InBmp(s[1..]) {
          forall k | 0 < k < |s| ensures s[k] as int <= 0xFFFF {
            assert s[k] == s[1..][k - 1];
          }
        }
      }
      (if s[0] as int > 0xFFFF then 2 else 1) + rest
  }

  /** Drops leading whitespace. */
  function TrimStart(s: string): string {
    if s != [] && IsSpace(s[0]) then TrimStart(s[1..]) else s
  }

  /** Drops trailing whitespace. */
  function TrimEnd(s: string): string {
    if s != [] && IsSpace(s[|s| - 1]) then TrimEnd(s[..|s| - 1]) else s
  }

  /** `TrimStart` gives the suffix of s after its longest all-space prefix. */
  lemma {:induction false} TrimStartSuffix(s: string)
    ensures var r := TrimStart(s);
      && |r| <= |s| && r == s[|s| - |r|..]
      && AllSpace(s[..|s| - |r|])
      && (r == [] || !IsSpace(r[0]))
  {
    if s != [] && IsSpace(s[0]) {
      TrimStartSuffix(s[1..]);
      var r := TrimStart(s[1..]);
      assert s[..|s| - |r|] == [s[0]] + s[1..][..|s[1..]| - |r|];
    }
  }

  /** `TrimEnd` gives the prefix of s before its longest all-space suffix. */
  lemma {:induction false} TrimEndPrefix(s: string)
    ensures var r := TrimEnd(s);
      && |r| <= |s| && r == s[..|r|]
      && AllSpace(s[|r|..])
      && (r == [] || !IsSpace(r[|r| - 1]))
  {
    if s != [] && IsSpace(s[|s| - 1]) {
      TrimEndPrefix(s[..|s| - 1]);
      var r := TrimEnd(s[..|s| - 1]);
      assert s[|r|..] == s[..|s| - 1][|r|..] + [s[|s| - 1]];
    }
  }

  /** `s.trim()`. */
  function Trim(s: string): (r: string)
    ensures r == [] || (!IsSpace(r[0]) && !IsSpace(r[|r| - 1]))
    ensures r == [] <==> AllSpace(s)
  {
    var t := TrimStart(s);
    var r := TrimEnd(t);
    assert r == [] <==> AllSpace(s) by {
      TrimStartSuffix(s);
      TrimEndPrefix(t);
      if r == [] {
        assert AllSpace(t) by {
          assert t == t[|r|..];
        }
        assert t == [];
        assert s == s[..|s| - |t|];
      } else {
        assert r[0] == t[0];
        assert t[0] == s[|s| - |t|];
        assert !AllSpace(s);
      }
    }
    assert r == [] || (!IsSpace(r[0]) && !IsSpace(r[|r| - 1])) by {
      TrimStartSuffix(s);
      TrimEndPrefix(t);
      if r != [] {
        assert r[0] == t[0];
      }
    }
    r
  }

  /** `Trim` cuts s into an all-space prefix, the result, and an all-space suffix. */
  lemma TrimSlice(s: string)
    ensures exists i, j :: 0 <= i <= j <= |s| && Trim(s) == s[i..j] && AllSpace(s[..i]) && AllSpace(s[j..])
  {
    var t := TrimStart(s);
    var r := TrimEnd(t);
    TrimStartSuffix(s);
    TrimEndPrefix(t);
    var i := |s| - |t|;
    var j := i + |r|;
    assert r == s[i..j];
    assert s[j..] == t[|r|..];
  }
}
