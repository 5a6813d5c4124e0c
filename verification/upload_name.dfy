/** The name under which the server stores an uploaded identity document:
    a unique prefix (a timestamp and a random number, taken here as a
    parameter) followed by the extension of the name the file was uploaded
    under, as Node's POSIX `path.extname` computes it. */
module UploadName {
  import opened Wrappers

  /** The position of the last `c` in `s`. */
  function LastIndex(s: string, c: char): (r: Option<nat>)
    ensures r.Some? ==> r.value < |s| && s[r.value] == c
    ensures r.Some? ==> forall j :: r.value < j < |s| ==> s[j] != c
    ensures r.None? <==> c !in s
    decreases |s|
  {
    if |s| == 0 then None
    else if s[|s| - 1] == c then Some(|s| - 1)
    else
      var r := LastIndex(s[..|s| - 1], c);
      assert s == s[..|s| - 1] + [s[|s| - 1]];
      r
  }

  /** `s` without its trailing slashes: `extname` ignores them. */
  function StripTrailingSlashes(s: string): (r: string)
    ensures |r| <= |s| && r == s[..|r|]
    ensures |r| == 0 || r[|r| - 1] != '/'
    ensures forall j :: |r| <= j < |s| ==> s[j] == '/'
    decreases |s|
  {
    if |s| > 0 && s[|s| - 1] == '/' then StripTrailingSlashes(s[..|s| - 1]) else s
  }

  /** The last path segment: what follows the last slash once trailing
      slashes are gone. */
  function BaseName(s: string): (r: string)
    ensures '/' !in r
    ensures var t := StripTrailingSlashes(s); |r| <= |t| && r == t[|t| - |r|..]
    ensures var t := StripTrailingSlashes(s); |r| == |t| || t[|t| - |r| - 1] == '/'
  {
    var t := StripTrailingSlashes(s);
    match LastIndex(t, '/')
    case None => t
    case Some(k) => t[k + 1..]
  }

  /** `path.extname(name)`: the extension of the last segment. */
  function ExtName(name: string): (r: string)
    ensures r == "" || (r[0] == '.' && '.' !in r[1..] && '/' !in r)
    ensures var b := BaseName(name); |r| <= |b| && r == b[|b| - |r|..]
    ensures var b := BaseName(name); '.' !in b ==> r == ""
    ensures var b := BaseName(name); r == "" <==> NoExtension(b)
  {
    SegmentExt(BaseName(name))
  }

  /** A segment without an extension: no '.', a '.' only as its first
      character, or "..". */
  predicate NoExtension(b: string) {
    '.' !in b || (b[0] == '.' && '.' !in b[1..]) || b == ".."
  }

  /** The extension of one path segment: from its last '.' to its end;
      empty when the segment has no '.', when that '.' is its first
      character, or when the segment is "..". */
  function SegmentExt(b: string): (r: string)
    requires '/' !in b
    ensures r == "" || (r[0] == '.' && '.' !in r[1..] && '/' !in r)
    ensures |r| <= |b| && r == b[|b| - |r|..]
    ensures '.' !in b ==> r == ""
    ensures r == "" <==> NoExtension(b)
  {
    match LastIndex(b, '.')
    case None => ""
    case Some(k) =>
      if k == 0 || (|b| == 2 && b[0] == '.' && b[1] == '.') then ""
      else
        DotSuffix(b, k);
        b[k..]
  }

  /** The last '.' of a string is the one no other '.' follows. */
  lemma LastDotAt(s: string, k: nat)
    requires k < |s| && s[k] == '.'
    requires forall j :: k < j < |s| ==> s[j] != '.'
    ensures LastIndex(s, '.') == Some(k)
  {
    assert s[k] in s;
    var r := LastIndex(s, '.');
    assert r.value <= k;
  }

  /** The part of a segment from its last dot on has one dot, leading. */
  lemma DotSuffix(b: string, k: nat)
    requires k < |b| && b[k] == '.' && '/' !in b
    requires forall j :: k < j < |b| ==> b[j] != '.'
    ensures b[k..][0] == '.' && '.' !in b[k..][1..] && '/' !in b[k..]
    ensures b[k..] == b[|b| - |b[k..]|..] && '.' in b
  {
    var r := b[k..];
    assert r[1..] == b[k + 1..];
    forall j | 0 <= j < |r| ensures r[j] != '/' {
      assert r[j] == b[k + j];
    }
  }

  /** A plain file name keeps its extension: the stem is not empty and is
      not "." standing before an empty extension. */
  lemma ExtNameOfStemAndExtension(stem: string, ext: string)
    requires '/' !in stem && '/' !in ext && '.' !in ext
    requires stem != "" && !(stem == "." && ext == "")
    ensures ExtName(stem + "." + ext) == "." + ext
  {
    var name := stem + "." + ext;
    assert '/' !in name by {
      forall j | 0 <= j < |name| ensures name[j] != '/' {
        if j < |stem| { assert name[j] == stem[j]; }
        else if j > |stem| { assert name[j] == ext[j - |stem| - 1]; }
      }
    }
    NoSlashStrip(name);
    forall j | |stem| < j < |name| ensures name[j] != '.' {
      assert name[j] == ext[j - |stem| - 1];
    }
    if |name| == 2 {
      assert stem == [name[0]];
    }
    SegmentExtAt(name, |stem|);
    assert name[|stem|..] == "." + ext;
  }

  /** A segment whose last dot is not its first character, other than "..",
      has the extension from that dot on. */
  lemma SegmentExtAt(b: string, k: nat)
    requires '/' !in b && 0 < k < |b| && b[k] == '.' && b != ".."
    requires forall j :: k < j < |b| ==> b[j] != '.'
    ensures SegmentExt(b) == b[k..]
  {
    LastDotAt(b, k);
  }

  /** A name without a dot, or whose only dot leads it, has no extension. */
  lemma ExtNameWithoutExtension(name: string)
    requires '/' !in name
    requires '.' !in name || ('.' !in name[1..] && name[0] == '.')
    ensures ExtName(name) == ""
  {
    NoSlashStrip(name);
    if '.' in name {
      forall j | 1 <= j < |name| ensures name[j] != '.' {
        assert name[j] == name[1..][j - 1];
      }
      assert LastIndex(name, '.') == Some(0);
    }
  }

  lemma NoSlashStrip(name: string)
    requires '/' !in name
    ensures StripTrailingSlashes(name) == name
    ensures BaseName(name) == name
  {
    if |name| > 0 {
      assert name[|name| - 1] in name;
    }
  }

  /** multer's stored name: the unique prefix, then the extension. */
  function StoredName(prefix: string, originalName: string): (r: string)
    ensures |prefix| <= |r| && r[..|prefix|] == prefix
    ensures var e := ExtName(originalName); |e| <= |r| && r[|r| - |e|..] == e
  {
    prefix + ExtName(originalName)
  }

  /** Two stored names with different prefixes of the same length differ,
      whatever the uploaded names. */
  lemma DistinctPrefixesDistinctNames(p1: string, p2: string, n1: string, n2: string)
    requires |p1| == |p2| && p1 != p2
    ensures StoredName(p1, n1) != StoredName(p2, n2)
  {
    var a, b := StoredName(p1, n1), StoredName(p2, n2);
    if a == b {
      assert a[..|p1|] == p1 && b[..|p2|] == p2;
    }
  }
}
