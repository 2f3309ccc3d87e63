/** The pieces of Go's `strings` and `path` packages that the request
    parser relies on. A Go string is modelled as a sequence of characters
    (runes). */
module GoStrings {

  /** Number of occurrences of `c` in `s`. */
  function Count(s: string, c: char): (n: nat)
    ensures n <= |s|
    ensures n == 0 <==> c !in s
  {
    if s == [] then 0 else (if s[0] == c then 1 else 0) + Count(s[1..], c)
  }

  lemma {:induction false} CountAppend(a: string, b: string, c: char)
    ensures Count(a + b, c) == Count(a, c) + Count(b, c)
  {
    if a != [] {
      assert (a + b)[1..] == a[1..] + b;
      CountAppend(a[1..], b, c);
    } else {
      assert a + b == b;
    }
  }

  /** The inverse of `Split`: the parts glued together with `sep`
      between consecutive ones (Go's strings.Join). */
  function Join(parts: seq<string>, sep: char): string
  {
    if |parts| == 0 then []
    else if |parts| == 1 then parts[0]
    else parts[0] + [sep] + Join(parts[1..], sep)
  }

  /** Joining behind an empty first part puts a separator in front. */
  lemma JoinEmptyFirst(rest: seq<string>, sep: char)
    requires |rest| >= 1
    ensures Join([[]] + rest, sep) == [sep] + Join(rest, sep)
  {
    assert ([[]] + rest)[1..] == rest;
  }

  /** Joining after extending the first part extends the joined string. */
  lemma JoinExtendFirst(c: char, parts: seq<string>, sep: char)
    requires |parts| >= 1
    ensures Join([[c] + parts[0]] + parts[1..], sep) == [c] + Join(parts, sep)
  {
    var ext := [[c] + parts[0]] + parts[1..];
    assert ext[1..] == parts[1..];
  }

  /** strings.Split(s, sep) for a one-character separator: the pieces of
      `s` between consecutive occurrences of `sep`. There is always one
      piece more than there are separators, no piece holds a separator,
      and joining the pieces gives `s` back. */
  function Split(s: string, sep: char): (parts: seq<string>)
    ensures |parts| == Count(s, sep) + 1
    ensures forall i :: 0 <= i < |parts| ==> sep !in parts[i]
    ensures Join(parts, sep) == s
  {
    if s == [] then [[]]
    else
      var rest := Split(s[1..], sep);
      assert s == [s[0]] + s[1..];
      if s[0] == sep then
        JoinEmptyFirst(rest, sep);
        [[]] + rest
      else
        JoinExtendFirst(s[0], rest, sep);
        [[s[0]] + rest[0]] + rest[1..]
  }

  /** A string made of two separator-free pieces around one separator
      splits into exactly those two pieces. */
  lemma {:induction false} SplitTwo(a: string, b: string, sep: char)
    requires sep !in a && sep !in b
    ensures Split(a + [sep] + b, sep) == [a, b]
  {
    var s := a + [sep] + b;
    if a == [] {
      var parts := Split(b, sep);
      assert |parts| == 1 && parts == [b];
      assert s[0] == sep && s[1..] == b;
      assert Split(s, sep) == [[]] + parts;
    } else {
      assert s[0] == a[0] && s[0] != sep;
      assert s[1..] == a[1..] + [sep] + b;
      SplitTwo(a[1..], b, sep);
      var rest := Split(s[1..], sep);
      assert rest == [a[1..], b];
      assert Split(s, sep) == [[a[0]] + a[1..]] + [b];
      assert [a[0]] + a[1..] == a;
    }
  }

  /** s starts with prefix (strings.HasPrefix). */
  predicate HasPrefix(s: string, prefix: string)
  {
    |prefix| <= |s| && s[..|prefix|] == prefix
  }

  /** s ends with suffix (strings.HasSuffix). */
  predicate HasSuffix(s: string, suffix: string)
  {
    |suffix| <= |s| && s[|s| - |suffix|..] == suffix
  }

  /** strings.TrimPrefix: `s` without `prefix` if it starts with it. */
  function TrimPrefix(s: string, prefix: string): (r: string)
    ensures HasPrefix(s, prefix) ==> prefix + r == s
    ensures !HasPrefix(s, prefix) ==> r == s
  {
    if HasPrefix(s, prefix) then s[|prefix|..] else s
  }

  /** strings.TrimSuffix: `s` without `suffix` if it ends with it. */
  function TrimSuffix(s: string, suffix: string): (r: string)
    ensures HasSuffix(s, suffix) ==> r + suffix == s
    ensures !HasSuffix(s, suffix) ==> r == s
  {
    if HasSuffix(s, suffix) then s[..|s| - |suffix|] else s
  }

  /** unicode.ToLower on one rune, as far as it can produce an ASCII
      letter: ASCII capitals, LATIN CAPITAL LETTER I WITH DOT ABOVE
      (U+0130, lowered to 'i') and KELVIN SIGN (U+212A, lowered to 'k').
      Every other rune is kept; the lower case of any other non-ASCII
      rune is again non-ASCII. */
  function LowerRune(c: char): (r: char)
    ensures 'A' <= c <= 'Z' ==> r as int == c as int + 32
    ensures 'a' <= r <= 'z' <==> 'a' <= c <= 'z' || 'A' <= c <= 'Z' || c == '\U{0130}' || c == '\U{212A}'
    ensures r == c || 'a' <= r <= 'z'
  {
    if 'A' <= c <= 'Z' then (c as int + 32) as char
    else if c == '\U{0130}' then 'i'
    else if c == '\U{212A}' then 'k'
    else c
  }

  /** strings.ToLower, rune by rune. */
  function ToLower(s: string): (r: string)
    ensures |r| == |s|
    ensures forall i :: 0 <= i < |s| ==> r[i] == LowerRune(s[i])
  {
    if s == [] then [] else [LowerRune(s[0])] + ToLower(s[1..])
  }

  /** The rune `c` reads as the lower-case ASCII letter `w` once letter
      case is ignored: `w` itself, its capital, or one of the two
      non-ASCII runes whose lower case is ASCII. */
  predicate SameLetterIgnoringCase(c: char, w: char)
    requires 'a' <= w <= 'z'
  {
    c == w || c as int == w as int - 32
    || (w == 'i' && c == '\U{0130}') || (w == 'k' && c == '\U{212A}')
  }

  /** `s` spells the lower-case ASCII word `w` in any letter case. */
  predicate EqualIgnoringCase(s: string, w: string)
    requires forall i :: 0 <= i < |w| ==> 'a' <= w[i] <= 'z'
  {
    |s| == |w| && forall i :: 0 <= i < |s| ==> SameLetterIgnoringCase(s[i], w[i])
  }

  /** Lowering a string gives a lower-case ASCII word exactly when the
      string spells that word in some letter case. */
  lemma ToLowerIsWord(s: string, w: string)
    requires forall i :: 0 <= i < |w| ==> 'a' <= w[i] <= 'z'
    ensures ToLower(s) == w <==> EqualIgnoringCase(s, w)
  {
    if EqualIgnoringCase(s, w) {
      assert forall i :: 0 <= i < |s| ==> ToLower(s)[i] == w[i];
    }
    if ToLower(s) == w {
      forall i | 0 <= i < |s| ensures SameLetterIgnoringCase(s[i], w[i]) {
        assert LowerRune(s[i]) == w[i];
      }
    }
  }

  /** The number of bytes in the UTF-8 encoding of one rune. */
  function RuneLen(c: char): (n: nat)
    ensures 1 <= n <= 4
    ensures n == 1 <==> c as int < 0x80
  {
    if c as int < 0x80 then 1
    else if c as int < 0x800 then 2
    else if c as int < 0x1_0000 then 3
    else 4
  }

  /** Go's `len` on a string: the number of bytes of its UTF-8 encoding.
      It is never less than the number of runes, and equal to it exactly
      when every rune is ASCII. */
  function Utf8Len(s: string): (n: nat)
    ensures |s| <= n <= 4 * |s|
    ensures n == |s| <==> forall i :: 0 <= i < |s| ==> s[i] as int < 0x80
  {
    if s == [] then 0
    else
      var n := RuneLen(s[0]) + Utf8Len(s[1..]);
      assert (forall i :: 0 <= i < |s| ==> s[i] as int < 0x80) <==>
             s[0] as int < 0x80 && forall i :: 0 <= i < |s[1..]| ==> s[1..][i] as int < 0x80 by {
        if forall i :: 0 <= i < |s[1..]| ==> s[1..][i] as int < 0x80 {
          assert forall i :: 1 <= i < |s| ==> s[i] == s[1..][i - 1];
        }
      }
      n
  }

  /** The byte length of a concatenation is the sum of the byte lengths. */
  lemma {:induction false} Utf8LenAppend(a: string, b: string)
    ensures Utf8Len(a + b) == Utf8Len(a) + Utf8Len(b)
  {
    if a == [] {
      assert a + b == b;
    } else {
      assert (a + b)[1..] == a[1..] + b;
      assert (a + b)[0] == a[0];
      Utf8LenAppend(a[1..], b);
    }
  }

  /** path.Ext: the suffix of `p` from its final '.', provided no '/'
      follows that '.'; the empty string otherwise. */
  function Ext(p: string): (e: string)
    ensures HasSuffix(p, e)
    ensures '/' !in e
    ensures e != [] ==> e[0] == '.' && '.' !in e[1..]
    ensures e == [] ==> forall k :: 0 <= k <= |p| && '/' !in p[k..] ==> '.' !in p[k..]
    decreases |p|
  {
    if p == [] then []
    else
      var c := p[|p| - 1];
      var init := p[..|p| - 1];
      assert p == init + [c];
      if c == '/' then
        assert forall k :: 0 <= k < |p| ==> '/' in p[k..] by {
          forall k | 0 <= k < |p| ensures '/' in p[k..] {
            assert p[k..][|p| - 1 - k] == c;
          }
        }
        []
      else if c == '.' then
        [c]
      else
        var e := Ext(init);
        if e == [] then
          assert forall k :: 0 <= k <= |p| && '/' !in p[k..] ==> '.' !in p[k..] by {
            forall k | 0 <= k <= |p| && '/' !in p[k..] ensures '.' !in p[k..] {
              if k < |p| {
                assert p[k..] == init[k..] + [c];
              }
            }
          }
          []
        else
          assert (e + [c])[1..] == e[1..] + [c];
          e + [c]
  }

  /** A '.' at index `j` with no '.' or '/' after it starts the
      extension. */
  lemma {:induction false} ExtFromDot(p: string, j: nat)
    requires j < |p| && p[j] == '.' && '.' !in p[j + 1..] && '/' !in p[j + 1..]
    ensures Ext(p) == p[j..]
    decreases |p|
  {
    var c := p[|p| - 1];
    if j < |p| - 1 {
      var init := p[..|p| - 1];
      assert c == p[j + 1..][|p| - j - 2];
      assert init[j + 1..] == p[j + 1..|p| - 1];
      ExtFromDot(init, j);
      assert p[j..] == init[j..] + [c];
    }
  }

  /** A name ending in '.' and a suffix free of '.' and '/' has that
      suffix, dot included, as its extension. */
  lemma ExtOfDottedName(name: string, suffix: string)
    requires '.' !in suffix && '/' !in suffix
    ensures Ext(name + ['.'] + suffix) == ['.'] + suffix
  {
    var p := name + ['.'] + suffix;
    var j := |name|;
    assert p[j] == '.' && p[j + 1..] == suffix && p[j..] == ['.'] + suffix;
    ExtFromDot(p, j);
  }

  /** The extension of a path is decided by its last segment alone. */
  lemma {:induction false} ExtOfLastSegment(dir: string, name: string)
    ensures Ext(dir + ['/'] + name) == Ext(name)
    decreases |name|
  {
    var p := dir + ['/'] + name;
    if name == [] {
      assert p[|p| - 1] == '/';
    } else {
      var init := name[..|name| - 1];
      assert p[..|p| - 1] == dir + ['/'] + init;
      assert p[|p| - 1] == name[|name| - 1];
      ExtOfLastSegment(dir, init);
    }
  }

}
