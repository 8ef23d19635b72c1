/** The upload check of the `/transcribe/` endpoint: the extension of the
    uploaded file's name, as `os.path.splitext` finds it on a POSIX system,
    lower-cased, must be one of seven audio extensions. */
module Upload {
  import opened Text

  /** The extensions the speech-recognition service accepts. */
  const AllowedExtensions: set<string> := {".mp3", ".mp4", ".mpeg", ".mpga", ".m4a", ".wav", ".webm"}

  /** Index of the last `c` in `s`, or -1 when there is none (`str.rfind`). */
  function LastIndexOf(s: string, c: char): (i: int)
    ensures -1 <= i < |s|
    ensures 0 <= i ==> s[i] == c
    ensures forall k :: i < k < |s| ==> s[k] != c
  {
    if s == [] then -1
    else if s[|s| - 1] == c then |s| - 1
    else LastIndexOf(s[..|s| - 1], c)
  }

  /** Some character of `p[lo..hi]` is not a dot. */
  predicate NonDotBetween(p: string, lo: int, hi: int)
    requires 0 <= lo <= hi <= |p|
  {
    exists k :: lo <= k < hi && p[k] != '.'
  }

  /** The last path component of `p` holds a dot that comes after some
      character other than a dot. */
  predicate HasExtension(p: string) {
    exists j, i :: 0 <= j < i < |p| && p[j] != '.' && p[i] == '.' && '/' !in p[j..]
  }

  /** What `splitext`'s search finds is exactly what `HasExtension` asks for. */
  lemma FoundExtension(p: string)
    ensures HasExtension(p)
        <==> LastIndexOf(p, '.') > LastIndexOf(p, '/')
             && NonDotBetween(p, LastIndexOf(p, '/') + 1, LastIndexOf(p, '.'))
  {
    var sepIndex := LastIndexOf(p, '/');
    var dotIndex := LastIndexOf(p, '.');
    if HasExtension(p) {
      var j, i :| 0 <= j < i < |p| && p[j] != '.' && p[i] == '.' && '/' !in p[j..];
      ExtensionWitness(p, j, i);
    }
    if dotIndex > sepIndex && NonDotBetween(p, sepIndex + 1, dotIndex) {
      var k :| sepIndex + 1 <= k < dotIndex && p[k] != '.';
      assert '/' !in p[k..];
    }
  }

  /** A non-dot followed by a dot in the last path component places the last
      dot after the last slash, with that non-dot between them. */
  lemma ExtensionWitness(p: string, j: int, i: int)
    requires 0 <= j < i < |p| && p[j] != '.' && p[i] == '.' && '/' !in p[j..]
    ensures LastIndexOf(p, '.') >= i && LastIndexOf(p, '/') < j
  {
    assert p[i] == p[j..][i - j];
    assert forall k :: j <= k < |p| ==> p[k] == p[j..][k - j];
  }

  /** `os.path.splitext(p)[1]` with POSIX separators: from the last dot of the
      last path component to the end, unless every character before that dot
      in the component is itself a dot (so `.wav` and `..wav` have none). */
  function Extension(p: string): (ext: string)
    ensures ext != [] <==> HasExtension(p)
    ensures ext != [] ==> |ext| <= |p| && p[|p| - |ext|..] == ext
    ensures ext != [] ==> ext[0] == '.' && '.' !in ext[1..] && '/' !in ext
  {
    var sepIndex := LastIndexOf(p, '/');
    var dotIndex := LastIndexOf(p, '.');
    FoundExtension(p);
    if dotIndex > sepIndex && NonDotBetween(p, sepIndex + 1, dotIndex) then p[dotIndex..] else []
  }

  /** The check at the head of the endpoint: an upload is accepted exactly
      when its lower-cased extension is an allowed one. */
  predicate IsSupported(filename: string)
    ensures IsSupported(filename) ==> HasExtension(filename)
  {
    LowerAscii(Extension(filename)) in AllowedExtensions
  }

  /** The stem before an extension names something: its last path component
      has a character other than a dot. */
  predicate NamedStem(stem: string) {
    exists j :: 0 <= j < |stem| && stem[j] != '.' && '/' !in stem[j..]
  }

  /** Every allowed extension is a dot followed by dot-free, slash-free text. */
  lemma AllowedShape(e: string)
    requires e in AllowedExtensions
    ensures |e| >= 2 && e[0] == '.' && '.' !in e[1..] && '/' !in e
  {
  }

  lemma LowerKeepsDotAndSlash(c: char)
    ensures LowerChar(c) == '.' <==> c == '.'
    ensures LowerChar(c) == '/' <==> c == '/'
  {
  }

  /** `rfind` of a dot or a slash does not see letter case. */
  lemma {:induction false} LastIndexOfLower(s: string, c: char)
    requires c == '.' || c == '/'
    ensures LastIndexOf(LowerAscii(s), c) == LastIndexOf(s, c)
  {
    var i, j := LastIndexOf(s, c), LastIndexOf(LowerAscii(s), c);
    forall k | 0 <= k < |s| ensures LowerAscii(s)[k] == c <==> s[k] == c {
      LowerKeepsDotAndSlash(s[k]);
    }
  }

  /** Lower-casing commutes with taking the extension. */
  lemma ExtensionOfLower(p: string)
    ensures Extension(LowerAscii(p)) == LowerAscii(Extension(p))
  {
    var q := LowerAscii(p);
    LastIndexOfLower(p, '/');
    LastIndexOfLower(p, '.');
    var sepIndex := LastIndexOf(p, '/');
    var dotIndex := LastIndexOf(p, '.');
    forall k | 0 <= k < |p| ensures q[k] != '.' <==> p[k] != '.' {
      LowerKeepsDotAndSlash(p[k]);
    }
    if dotIndex > sepIndex {
      assert NonDotBetween(q, sepIndex + 1, dotIndex) <==> NonDotBetween(p, sepIndex + 1, dotIndex);
      assert q[dotIndex..] == LowerAscii(p[dotIndex..]);
    }
  }

  /** `X.WAV` and `x.wav` are treated alike: names that agree after
      lower-casing are accepted or rejected together. */
  lemma SupportedIgnoresCase(a: string, b: string)
    requires LowerAscii(a) == LowerAscii(b)
    ensures IsSupported(a) <==> IsSupported(b)
  {
    ExtensionOfLower(a);
    ExtensionOfLower(b);
  }

  /** An independent reading of the check: a name is accepted exactly when it
      ends, ignoring case, in an allowed extension that follows a named stem. */
  lemma SupportedIffAllowedSuffix(p: string)
    ensures IsSupported(p)
        <==> exists k :: 0 <= k < |p| && LowerAscii(p[k..]) in AllowedExtensions && NamedStem(p[..k])
  {
    if IsSupported(p) {
      var ext := Extension(p);
      assert ext != [] by { assert LowerAscii([]) == []; }
      var k := |p| - |ext|;
      var j, i :| 0 <= j < i < |p| && p[j] != '.' && p[i] == '.' && '/' !in p[j..];
      assert p[k..] == ext;
      SuffixStem(p, k, j, i);
    }
    if exists k :: 0 <= k < |p| && LowerAscii(p[k..]) in AllowedExtensions && NamedStem(p[..k]) {
      var k :| 0 <= k < |p| && LowerAscii(p[k..]) in AllowedExtensions && NamedStem(p[..k]);
      AllowedSuffixIsExtension(p, k);
    }
  }

  /** The last dot of an accepted name sits after a named stem. */
  lemma SuffixStem(p: string, k: int, j: int, i: int)
    requires 0 <= j < i < |p| && p[j] != '.' && p[i] == '.' && '/' !in p[j..]
    requires 0 <= k < |p| && p[k] == '.' && '.' !in p[k + 1..]
    ensures NamedStem(p[..k])
  {
    assert p[i] == p[j..][i - j];
    assert forall m :: k < m < |p| ==> p[m] == p[k + 1..][m - k - 1];
    assert p[..k][j] == p[j];
    assert p[..k][j..] == p[j..k];
    assert forall x :: x in p[j..k] ==> x in p[j..] by {
      forall x | x in p[j..k] ensures x in p[j..] {
        var m :| 0 <= m < |p[j..k]| && p[j..k][m] == x;
        assert p[j..][m] == x;
      }
    }
  }

  /** An allowed suffix after a named stem is exactly what `splitext` finds. */
  lemma AllowedSuffixIsExtension(p: string, k: int)
    requires 0 <= k < |p| && LowerAscii(p[k..]) in AllowedExtensions && NamedStem(p[..k])
    ensures LowerAscii(Extension(p)) == LowerAscii(p[k..])
  {
    var e := LowerAscii(p[k..]);
    AllowedShape(e);
    forall m | k <= m < |p| ensures (p[m] == '.' <==> m == k) && p[m] != '/' {
      LowerKeepsDotAndSlash(p[m]);
      assert e[m - k] == LowerChar(p[m]);
      if m > k { assert e[m - k] == e[1..][m - k - 1]; }
    }
    var j :| 0 <= j < k && p[..k][j] != '.' && '/' !in p[..k][j..];
    assert p[j] != '.';
    forall m | j <= m < |p| ensures p[m] != '/' {
      if m < k { assert p[m] == p[..k][j..][m - j]; }
    }
    assert '/' !in p[j..] by {
      forall m | 0 <= m < |p[j..]| ensures p[j..][m] != '/' { assert p[j..][m] == p[j + m]; }
    }
    assert HasExtension(p);
    var ext := Extension(p);
    assert ext[0] == '.';
    var start := |p| - |ext|;
    assert p[start] == ext[0];
    assert start == k;
  }

  /** Upper-case extensions are accepted. */
  lemma UpperCaseAccepted()
    ensures IsSupported("Meeting.WAV")
  {
    var p := "Meeting.WAV";
    assert LowerAscii(p[7..]) == ".wav";
    assert p[..7][0] == 'M' && '/' !in p[..7][0..];
    SupportedIffAllowedSuffix(p);
  }

  /** A leading dot does not start an extension, so `.wav` is rejected. */
  lemma DotFileRejected()
    ensures !IsSupported(".wav")
  {
    var p := ".wav";
    assert !HasExtension(p) by {
      forall j, i | 0 <= j < i < |p| && p[j] != '.' ensures p[i] != '.' {
        assert i >= 1;
      }
    }
    assert LowerAscii([]) == [];
  }
}
