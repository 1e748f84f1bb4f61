/** `normalize_image_name`: the image field of the character form keeps only
    the base file name, so that any of the picture formats can be served for
    it. Splitting off the extension follows `os.path.splitext` on POSIX. */
module ImageName {
  import opened Wrappers
  import opened PyStr

  /** The index of the last `c` in `s`, or -1 (`str.rfind`). */
  function LastIndexOf(s: string, c: char): (r: int)
    ensures -1 <= r < |s|
    ensures r >= 0 ==> s[r] == c
    ensures forall j :: r < j < |s| ==> s[j] != c
  {
    if s == [] then -1
    else if s[|s| - 1] == c then |s| - 1
    else LastIndexOf(s[..|s| - 1], c)
  }

  /** Some character other than a dot in `p[lo..hi]`. */
  predicate HasNonDot(p: string, lo: int, hi: int)
    requires 0 <= lo && hi <= |p|
  {
    exists i :: lo <= i < hi && p[i] != '.'
  }

  /** What `splitext` cuts off: nothing, or a dot followed by neither dots
      nor slashes. */
  predicate IsExtension(ext: string)
  {
    ext == [] || (ext[0] == '.' && forall k :: 0 < k < |ext| ==> ext[k] != '.' && ext[k] != '/')
  }

  /** `os.path.splitext(p)`: the extension is the part from the last dot of the
      final path component on, unless that component has only dots before it
      (a leading-dot name such as `.hidden` has no extension). */
  function SplitExt(p: string): (r: (string, string))
    ensures r.0 + r.1 == p
    ensures IsExtension(r.1)
    ensures r.1 != [] ==> HasNonDot(p, LastIndexOf(p, '/') + 1, |r.0|)
    ensures r.1 == [] ==> forall i, j :: LastIndexOf(p, '/') < i < j < |p| && p[j] == '.' ==> p[i] == '.'
  {
    var sep, dot := LastIndexOf(p, '/'), LastIndexOf(p, '.');
    if dot > sep && HasNonDot(p, sep + 1, dot) then (p[..dot], p[dot..])
    else (p, [])
  }

  /** A non-empty path always keeps a non-empty root: the dot that starts an
      extension has a non-dot character before it. */
  lemma RootNonEmpty(p: string)
    requires p != []
    ensures SplitExt(p).0 != []
  {
  }

  /** `normalize_image_name`: nothing for a missing or blank name, otherwise the
      stripped name without its extension, which is never empty. */
  function NormalizeImageName(name: Option<string>): (r: Option<string>)
    ensures r.None? <==> name.None? || forall i :: 0 <= i < |name.value| ==> IsSpace(name.value[i])
    ensures r.Some? ==> var s := Strip(name.value);
      r.value != [] && |r.value| <= |s| && s[..|r.value|] == r.value && IsExtension(s[|r.value|..])
  {
    if name.None? || name.value == [] then None
    else
      StripMeaning(name.value);
      var stripped := Strip(name.value);
      if stripped == [] then None
      else
        var base := SplitExt(stripped).0;
        assert stripped[|base|..] == SplitExt(stripped).1;
        if base == [] then None else Some(base)
  }

  /** The last `c` of `p` is at `d` when `p[d]` is one and nothing after it is. */
  lemma LastIndexOfAt(p: string, c: char, d: int)
    requires 0 <= d < |p| && p[d] == c
    requires forall j :: d < j < |p| ==> p[j] != c
    ensures LastIndexOf(p, c) == d
  {
  }

  /** `splitext(base + ext)` gives back `base` and `ext` when `ext` is a single
      extension and the last component of `base` has a non-dot character. */
  lemma SplitJoined(base: string, ext: string)
    requires HasNonDot(base, LastIndexOf(base, '/') + 1, |base|)
    requires ext != [] && IsExtension(ext)
    ensures SplitExt(base + ext) == (base, ext)
  {
    var p := base + ext;
    assert forall j :: |base| <= j < |p| ==> p[j] == ext[j - |base|];
    LastIndexOfAt(p, '.', |base|);
    LastIndexOfPrefix(base, ext, '/');
    var i :| LastIndexOf(base, '/') + 1 <= i < |base| && base[i] != '.';
    assert p[i] == base[i];
    assert p[..|base|] == base && p[|base|..] == ext;
  }

  /** A name that is not blank is stored as the root `splitext` gives for the
      stripped name: whatever `SplitExt` cuts off is dropped, nothing else. */
  lemma StoresSplitRoot(name: string)
    requires Strip(name) != []
    ensures NormalizeImageName(Some(name)) == Some(SplitExt(Strip(name)).0)
  {
    StripMeaning(name);
    RootNonEmpty(Strip(name));
  }

  /** A file name `base.ext`, with any whitespace around it, is stored as
      `base`: the round trip the image field is meant for (the form may be
      given `hero.png` or ` hero.webp `). */
  lemma StoresBase(name: string, base: string, ext: string)
    requires Strip(name) == base + ext
    requires HasNonDot(base, LastIndexOf(base, '/') + 1, |base|)
    requires ext != [] && IsExtension(ext)
    ensures NormalizeImageName(Some(name)) == Some(base)
  {
    StripMeaning(name);
    SplitJoined(base, ext);
  }

  /** The last `c` of `a + b` lies in `a` when `b` has none. */
  lemma {:induction false} LastIndexOfPrefix(a: string, b: string, c: char)
    requires forall k :: 0 <= k < |b| ==> b[k] != c
    ensures LastIndexOf(a + b, c) == LastIndexOf(a, c)
    decreases |b|
  {
    if b != [] {
      var ab := a + b;
      assert ab[..|ab| - 1] == a + b[..|b| - 1];
      LastIndexOfPrefix(a, b[..|b| - 1], c);
    } else {
      assert a + b == a;
    }
  }

  /** A name whose last component has no dot after its first character is
      stored whole. */
  lemma NoExtensionKeepsName(name: string)
    requires Strip(name) != []
    requires forall i :: LastIndexOf(Strip(name), '/') + 1 < i < |Strip(name)| ==> Strip(name)[i] != '.'
    ensures NormalizeImageName(Some(name)) == Some(Strip(name))
  {
  }
}
