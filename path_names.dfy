/**
 * The path-name helpers the repair pass uses, pinned down for Windows
 * (`ntpath`), the platform the application targets: both `/` and `\` separate
 * path components.
 */
module PathNames {

  /** A path separator on Windows. */
  predicate IsSep(c: char) {
    c == '/' || c == '\\'
  }

  /**
   * The repair pass's "looks like a file path" heuristic: the text holds a
   * separator and a dot somewhere. It is a heuristic, not a path grammar.
   */
  predicate LooksLikePath(s: string) {
    ('/' in s || '\\' in s) && '.' in s
  }

  /** `t` ends `s`. */
  predicate IsSuffix(t: string, s: string) {
    |t| <= |s| && t == s[|s| - |t|..]
  }

  /** `os.path.basename`: the part of `p` after its last separator. */
  function Basename(p: string): string {
    if p == [] then []
    else if IsSep(p[|p| - 1]) then []
    else Basename(p[..|p| - 1]) + [p[|p| - 1]]
  }

  /**
   * Basename is characterised by three facts: it is a suffix of `p`, it
   * holds no separator, and whatever precedes it ends in a separator.
   */
  lemma {:induction false} BasenameIsLastComponent(p: string)
    ensures IsSuffix(Basename(p), p)
    ensures forall i :: 0 <= i < |Basename(p)| ==> !IsSep(Basename(p)[i])
    ensures |Basename(p)| < |p| ==> IsSep(p[|p| - |Basename(p)| - 1])
  {
    if p != [] && !IsSep(p[|p| - 1]) {
      var init := p[..|p| - 1];
      BasenameIsLastComponent(init);
      var b := Basename(init);
      assert Basename(p) == b + [p[|p| - 1]];
      assert b + [p[|p| - 1]] == p[|p| - |b| - 1..];
    }
  }

  /** A path without separators is its own basename. */
  lemma {:induction false} BasenameOfPlainName(p: string)
    requires forall i :: 0 <= i < |p| ==> !IsSep(p[i])
    ensures Basename(p) == p
  {
    if p != [] {
      BasenameOfPlainName(p[..|p| - 1]);
    }
  }

  predicate AllDots(s: string) {
    forall i :: 0 <= i < |s| ==> s[i] == '.'
  }

  /**
   * The extension `os.path.splitext` splits off a file name: from the last
   * dot to the end, dot included, unless everything before that dot is dots
   * (a leading-dot name such as ".flz" has no extension).
   */
  function NameExtension(name: string): string {
    if name == [] then []
    else
      var init := name[..|name| - 1];
      if name[|name| - 1] == '.' then
        (if AllDots(init) then [] else ".")
      else
        var e := NameExtension(init);
        if e == [] then [] else e + [name[|name| - 1]]
  }

  /**
   * The extension is either empty, and then every dot of the name is
   * preceded only by dots, or it is the suffix from the name's last dot,
   * and then something other than a dot precedes it.
   */
  lemma {:induction false} NameExtensionIsLastDotSuffix(name: string)
    ensures NameExtension(name) != [] ==> NameExtension(name)[0] == '.' && '.' !in NameExtension(name)[1..]
    ensures NameExtension(name) != [] ==>
              (IsSuffix(NameExtension(name), name) && !AllDots(name[..|name| - |NameExtension(name)|]))
    ensures NameExtension(name) == [] ==> forall i :: 0 <= i < |name| && name[i] == '.' ==> AllDots(name[..i])
  {
    if name == [] {
    } else if name[|name| - 1] == '.' {
      var init := name[..|name| - 1];
      forall i | 0 <= i < |name| && name[i] == '.' && AllDots(init) ensures AllDots(name[..i]) {
        assert name[..i] == init[..i];
      }
    } else {
      var init := name[..|name| - 1];
      var last := name[|name| - 1];
      NameExtensionIsLastDotSuffix(init);
      var e := NameExtension(init);
      assert NameExtension(name) == if e == [] then [] else e + [last];
      if e != [] {
        assert (e + [last])[1..] == e[1..] + [last];
        assert name[..|name| - |e| - 1] == init[..|init| - |e|];
        assert e + [last] == name[|name| - |e| - 1..];
      } else {
        forall i | 0 <= i < |name| && name[i] == '.' ensures AllDots(name[..i]) {
          assert i < |init|;
          assert name[..i] == init[..i];
        }
      }
    }
  }

  /**
   * `os.path.splitext(p)[1]` on Windows: the extension of the last path
   * component, so a dot before the last separator never starts one.
   */
  function Extension(p: string): string {
    NameExtension(Basename(p))
  }

  /** The extension is a suffix of the path that starts with a dot and crosses no separator. */
  lemma ExtensionIsSuffixOfBasename(p: string)
    ensures Extension(p) != [] ==> Extension(p)[0] == '.'
    ensures IsSuffix(Extension(p), Basename(p)) && IsSuffix(Extension(p), p)
    ensures forall i :: 0 <= i < |Extension(p)| ==> !IsSep(Extension(p)[i])
  {
    BasenameIsLastComponent(p);
    NameExtensionIsLastDotSuffix(Basename(p));
  }

  function LowerChar(c: char): char {
    if 'A' <= c <= 'Z' then (c as int - 'A' as int + 'a' as int) as char else c
  }

  /** `str.lower` restricted to ASCII letters, which is all the type table compares against. */
  function Lower(s: string): (r: string)
    ensures |r| == |s|
  {
    seq(|s|, i requires 0 <= i < |s| => LowerChar(s[i]))
  }

  /** Lower-casing twice is lower-casing once. */
  lemma LowerIdempotent(s: string)
    ensures Lower(Lower(s)) == Lower(s)
  {
    forall i | 0 <= i < |s| ensures Lower(Lower(s))[i] == Lower(s)[i] {
      assert Lower(s)[i] == LowerChar(s[i]);
    }
  }
}
