/**
 * The handful of Ruby string and path operations the documentation model
 * relies on, each stated for what it computes: `gsub` of one character by a
 * string, the text after the last occurrence of a character, the two forms of
 * `File.basename` the model calls, and ASCII `String#capitalize`.
 */
module RubyText {

  /** The text after the last `c` in `s`, or all of `s` when `c` does not
      occur at all. */
  function AfterLast(s: string, c: char): string
    decreases |s|
  {
    if s == [] then []
    else if s[|s| - 1] == c then []
    else AfterLast(s[..|s| - 1], c) + [s[|s| - 1]]
  }

  /** `AfterLast` gives the longest suffix of `s` in which `c` does not
      occur: a suffix, free of `c`, and either all of `s` or preceded by a
      `c`. */
  lemma {:induction false} AfterLastSpec(s: string, c: char)
    ensures |AfterLast(s, c)| <= |s| && AfterLast(s, c) == s[|s| - |AfterLast(s, c)|..]
    ensures c !in AfterLast(s, c)
    ensures |AfterLast(s, c)| < |s| ==> s[|s| - |AfterLast(s, c)| - 1] == c
    decreases |s|
  {
    if s != [] && s[|s| - 1] != c {
      var init := s[..|s| - 1];
      var last := s[|s| - 1];
      var r' := AfterLast(init, c);
      AfterLastSpec(init, c);
      assert AfterLast(s, c) == r' + [last];
      var n := |r'| + 1;
      assert r' == init[|init| - |r'|..];
      assert s[|s| - n..] == init[|init| - |r'|..] + [last];
    }
  }

  /** Without an occurrence of `c`, nothing is cut off. */
  lemma AfterLastAbsent(s: string, c: char)
    requires c !in s
    ensures AfterLast(s, c) == s
  {
    AfterLastSpec(s, c);
  }

  /** After a last `c`, exactly the text that follows it is kept. */
  lemma {:induction false} AfterLastSplit(p: string, c: char, b: string)
    requires c !in b
    ensures AfterLast(p + [c] + b, c) == b
    decreases |b|
  {
    var s := p + [c] + b;
    if b != [] {
      var b' := b[..|b| - 1];
      assert s[..|s| - 1] == p + [c] + b';
      assert b[|b| - 1] in b;
      AfterLastSplit(p, c, b');
      assert b == b' + [b[|b| - 1]];
    }
  }

  /** `s.gsub(c, t)` for a one-character pattern: every `c` becomes `t`. */
  function ReplaceAll(s: string, c: char, t: string): string
    decreases |s|
  {
    if s == [] then [] else (if s[0] == c then t else [s[0]]) + ReplaceAll(s[1..], c, t)
  }

  /** The pieces of `s` between occurrences of `c`: always at least one
      piece (the empty string is one empty piece), none of them containing
      `c`. */
  function Split(s: string, c: char): (r: seq<string>)
    ensures |r| >= 1
    ensures forall i :: 0 <= i < |r| ==> c !in r[i]
    decreases |s|
  {
    if s == [] then [""]
    else
      var rest := Split(s[1..], c);
      if s[0] == c then [""] + rest
      else [[s[0]] + rest[0]] + rest[1..]
  }

  /** The pieces glued back together with `c` between neighbours. */
  function Join(pieces: seq<string>, c: char): string
    decreases |pieces|
  {
    if pieces == [] then ""
    else if |pieces| == 1 then pieces[0]
    else pieces[0] + [c] + Join(pieces[1..], c)
  }

  /** Splitting loses nothing: joining the pieces gives back the string. */
  lemma {:induction false} JoinSplit(s: string, c: char)
    ensures Join(Split(s, c), c) == s
    decreases |s|
  {
    if s != [] {
      var rest := Split(s[1..], c);
      JoinSplit(s[1..], c);
      if s[0] == c {
        assert Split(s, c) == [""] + rest;
        assert ([""] + rest)[1..] == rest;
        assert s == [c] + s[1..];
      } else {
        var pieces := [[s[0]] + rest[0]] + rest[1..];
        assert Split(s, c) == pieces;
        if |rest| == 1 {
          assert s == [s[0]] + s[1..];
        } else {
          assert pieces[1..] == rest[1..];
          assert Join(rest, c) == rest[0] + [c] + Join(rest[1..], c);
          assert s == [s[0]] + s[1..];
        }
      }
    }
  }

  /** `s.start_with?(prefix)`. */
  predicate StartsWith(s: string, prefix: string)
  {
    |prefix| <= |s| && s[..|prefix|] == prefix
  }

  /** `File.basename(path)` for the paths a directory glob returns (no
      trailing separator): the text after the last `/`. */
  function BaseName(path: string): string
  {
    AfterLast(path, '/')
  }

  /** `File.basename(path, ext)` on an already separated base name: the
      suffix `ext` is removed only when it matches and something is left. */
  function StripSuffix(name: string, ext: string): (r: string)
    ensures r == name || (|r| > 0 && name == r + ext)
    ensures |name| > |ext| && name[|name| - |ext|..] == ext ==> r + ext == name
  {
    if |name| > |ext| && name[|name| - |ext|..] == ext then name[..|name| - |ext|] else name
  }

  /** Number of dots the name starts with; Ruby's basename never treats
      these as the start of an extension. */
  function LeadingDots(name: string): (n: nat)
    ensures n <= |name|
    ensures forall i :: 0 <= i < n ==> name[i] == '.'
    ensures n < |name| ==> name[n] != '.'
    decreases |name|
  {
    if name != [] && name[0] == '.' then 1 + LeadingDots(name[1..]) else 0
  }

  /** `File.basename(path, '.*')` on an already separated base name: the
      text from the last dot on is removed, where dots at the very start of
      the name do not count. */
  function StripExtension(name: string): (r: string)
    ensures r == name || (|r| < |name| && name[..|r|] == r && name[|r|] == '.' && '.' !in name[|r| + 1..])
  {
    var body := name[LeadingDots(name)..];
    var tail := AfterLast(body, '.');
    AfterLastSpec(body, '.');
    if |tail| == |body| then name
    else
      assert name[|name| - |tail|..] == tail;
      name[..|name| - |tail| - 1]
  }

  /** The usual case: `base.ext`, with `base` not starting with a dot and no
      dot in `ext`, loses exactly `.ext`. */
  lemma StripExtensionOf(base: string, ext: string)
    requires base != [] && base[0] != '.'
    requires '.' !in ext
    ensures StripExtension(base + "." + ext) == base
  {
    var name := base + "." + ext;
    assert LeadingDots(name) == 0;
    assert name[0..] == name;
    assert name == base + ['.'] + ext;
    AfterLastSplit(base, '.', ext);
    assert name[..|name| - |ext| - 1] == base;
  }

  /** ASCII upper case of one character. */
  function Upcase(c: char): char
  {
    if 'a' <= c <= 'z' then (c as int - 32) as char else c
  }

  /** ASCII lower case of one character. */
  function Downcase(c: char): char
  {
    if 'A' <= c <= 'Z' then (c as int + 32) as char else c
  }

  /** `String#capitalize` restricted to ASCII: first character upper case,
      all others lower case. */
  function Capitalize(s: string): string
  {
    if s == [] then [] else [Upcase(s[0])] + seq(|s| - 1, i requires 0 <= i < |s| - 1 => Downcase(s[i + 1]))
  }

  /** A string in the shape `Capitalize` leaves behind. */
  predicate IsCapitalized(s: string)
  {
    (s != [] ==> !('a' <= s[0] <= 'z')) && forall i :: 0 < i < |s| ==> !('A' <= s[i] <= 'Z')
  }
}
