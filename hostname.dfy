/** The host label shown next to every story: getHostName in ui.js.
    JavaScript's `indexOf`, `split('/')` and `slice` are written out on strings. */
module HostName {

  /** `pat` occurs in `s` starting at index `i`. */
  predicate OccursAt(s: string, pat: string, i: nat) {
    i + |pat| <= |s| && s[i..i + |pat|] == pat
  }

  /** Occurrences in `s` past its first character are the occurrences in `s[1..]`, shifted. */
  lemma OccursShift(s: string, pat: string)
    requires |s| > 0
    ensures forall j: nat :: j > 0 ==> (OccursAt(s, pat, j) <==> OccursAt(s[1..], pat, j - 1))
  {
    forall j: nat | j > 0 ensures OccursAt(s, pat, j) <==> OccursAt(s[1..], pat, j - 1) {
      if j + |pat| <= |s| {
        var w, v := s[j..j + |pat|], s[1..][j - 1..j - 1 + |pat|];
        assert forall t | 0 <= t < |pat| :: w[t] == v[t];
        assert s[j..j + |pat|] == s[1..][j - 1..j - 1 + |pat|];
      }
    }
  }

  /** JavaScript `s.indexOf(pat)`: the first index where `pat` occurs, or -1. */
  function IndexOf(s: string, pat: string): (r: int)
    ensures -1 <= r
    ensures r >= 0 ==> OccursAt(s, pat, r) && forall j: nat :: j < r ==> !OccursAt(s, pat, j)
    ensures r == -1 <==> forall j: nat :: !OccursAt(s, pat, j)
    decreases |s|
  {
    if |s| < |pat| then -1
    else if s[..|pat|] == pat then 0
    else
      var r := IndexOf(s[1..], pat);
      OccursShift(s, pat);
      assert !OccursAt(s, pat, 0);
      if r < 0 then -1 else r + 1
  }

  /** JavaScript `s.split('/')`: the pieces between the slashes, at least one. */
  function Split(s: string): (parts: seq<string>)
    ensures |parts| >= 1
    ensures forall k :: 0 <= k < |parts| ==> '/' !in parts[k]
    decreases |s|
  {
    if |s| == 0 then [""]
    else
      var rest := Split(s[1..]);
      if s[0] == '/' then [""] + rest
      else [[s[0]] + rest[0]] + rest[1..]
  }

  /** JavaScript `parts.join('/')`, the inverse of Split. */
  function Join(parts: seq<string>): string
    requires |parts| >= 1
  {
    if |parts| == 1 then parts[0] else parts[0] + "/" + Join(parts[1..])
  }

  /** Joining the pieces of a split gives back the string. */
  lemma {:induction false} JoinSplit(s: string)
    ensures Join(Split(s)) == s
    decreases |s|
  {
    if |s| > 0 {
      var rest := Split(s[1..]);
      JoinSplit(s[1..]);
      if s[0] == '/' {
        assert ([""] + rest)[1..] == rest;
        assert s == "/" + s[1..];
      } else if |rest| == 1 {
        assert s == [s[0]] + s[1..];
      } else {
        var parts := [[s[0]] + rest[0]] + rest[1..];
        assert parts[1..] == rest[1..];
        assert Join(rest) == rest[0] + "/" + Join(rest[1..]);
        assert s == [s[0]] + s[1..];
      }
    }
  }

  /** A slash-free string splits into itself alone. */
  lemma {:induction false} SplitSlashFree(s: string)
    requires '/' !in s
    ensures Split(s) == [s]
    decreases |s|
  {
    if |s| > 0 {
      assert '/' !in s[1..] by {
        forall i | 0 <= i < |s[1..]| ensures s[1..][i] != '/' { assert s[1..][i] == s[i + 1]; }
      }
      SplitSlashFree(s[1..]);
      assert s == [s[0]] + s[1..];
    }
  }

  /** Splitting `a/b` with a slash-free `a` gives `a` followed by the pieces of `b`. */
  lemma {:induction false} SplitAtFirstSlash(a: string, b: string)
    requires '/' !in a
    ensures Split(a + "/" + b) == [a] + Split(b)
    decreases |a|
  {
    var s := a + "/" + b;
    if |a| == 0 {
      assert s[1..] == b;
    } else {
      assert s[1..] == a[1..] + "/" + b;
      assert '/' !in a[1..] by {
        forall i | 0 <= i < |a[1..]| ensures a[1..][i] != '/' { assert a[1..][i] == a[i + 1]; }
      }
      SplitAtFirstSlash(a[1..], b);
      assert a == [a[0]] + a[1..];
    }
  }

  /** Two slashes after a slash-free `a` give `a`, then an empty piece, then the pieces
      of what follows. */
  lemma SplitAtDoubleSlash(a: string, b: string)
    requires '/' !in a
    ensures Split(a + "//" + b) == [a, ""] + Split(b)
  {
    var rest := "/" + b;
    assert a + "//" + b == a + "/" + rest;
    SplitAtFirstSlash(a, rest);
    assert rest[1..] == b;
  }

  /** Split is the only way to cut a string into slash-free pieces joined by '/'. */
  lemma {:induction false} SplitUnique(parts: seq<string>, s: string)
    requires |parts| >= 1
    requires forall k :: 0 <= k < |parts| ==> '/' !in parts[k]
    requires Join(parts) == s
    ensures Split(s) == parts
    decreases |parts|
  {
    if |parts| == 1 {
      SplitSlashFree(s);
    } else {
      SplitUnique(parts[1..], Join(parts[1..]));
      SplitAtFirstSlash(parts[0], Join(parts[1..]));
      assert parts == [parts[0]] + parts[1..];
    }
  }

  /** Splitting a string that drops its first character loses at most one piece. */
  lemma {:induction false} SplitShrinks(s: string)
    requires |s| > 0
    ensures |Split(s[1..])| <= |Split(s)|
  {
  }

  /** Two adjacent slashes anywhere make at least three pieces. */
  lemma {:induction false} DoubleSlashSplits(s: string, i: nat)
    requires i + 1 < |s| && s[i] == '/' && s[i + 1] == '/'
    ensures |Split(s)| >= 3
    decreases i
  {
    if i == 0 {
      assert s[1..][0] == '/';
      assert |Split(s[1..])| == 1 + |Split(s[1..][1..])|;
    } else {
      DoubleSlashSplits(s[1..], i - 1);
      SplitShrinks(s);
    }
  }

  /** ui.js tests `url.indexOf('://') > -1`: "://" occurs somewhere in the URL. */
  predicate HasScheme(url: string): (b: bool)
    ensures b <==> exists j: nat :: OccursAt(url, "://", j)
  {
    IndexOf(url, "://") > -1
  }

  /** Once "://" occurs anywhere, `url.split('/')[2]` exists. */
  lemma HostSegmentExists(url: string)
    requires HasScheme(url)
    ensures |Split(url)| >= 3
  {
    var i := IndexOf(url, "://");
    assert OccursAt(url, "://", i);
    var w := url[i..i + 3];
    assert w == "://";
    assert url[i + 1] == w[1] == '/' && url[i + 2] == w[2] == '/';
    DoubleSlashSplits(url, i + 1);
  }

  /** JavaScript `h.slice(0, 4) === 'www.'`: the slice of a shorter string is all of it,
      so the test holds exactly when the first four characters are "www.". */
  predicate StartsWithWww(h: string): (b: bool)
    ensures b <==> |h| >= 4 && h[..4] == "www."
  {
    (if |h| <= 4 then h else h[..4]) == "www."
  }

  /** Strips one leading "www." (`h.slice(4)`), nothing else. */
  function StripWww(h: string): (r: string)
    ensures StartsWithWww(h) ==> "www." + r == h
    ensures !StartsWithWww(h) ==> r == h
  {
    if StartsWithWww(h) then h[4..] else h
  }

  /** Removing a leading "www." from a slash-free string leaves it slash-free. */
  lemma StripWwwKeepsNoSlash(h: string)
    requires '/' !in h
    ensures '/' !in StripWww(h)
  {
    var r := StripWww(h);
    assert forall i | 0 <= i < |r| :: r[i] == h[i + |h| - |r|];
  }

  /** getHostName: the piece at index 2 when "://" occurs, else piece 0, minus one "www.";
      the label never contains a '/'. */
  function GetHostName(url: string): (r: string)
    ensures '/' !in r
  {
    var parts := Split(url);
    var host := if HasScheme(url) then HostSegmentExists(url); parts[2] else parts[0];
    StripWwwKeepsNoSlash(host);
    StripWww(host)
  }

  /** A URL `scheme://host` is labelled with its host. */
  lemma HostOfBareSchemeUrl(scheme: string, host: string)
    requires '/' !in scheme && '/' !in host
    ensures GetHostName(scheme + "://" + host) == StripWww(host)
  {
    var u := scheme + "://" + host;
    var a := scheme + ":";
    assert '/' !in a by { assert forall i | 0 <= i < |scheme| :: a[i] == scheme[i]; }
    assert u == a + "//" + host;
    SplitAtDoubleSlash(a, host);
    SplitSlashFree(host);
    assert OccursAt(u, "://", |scheme|) by { assert u[|scheme|..|scheme| + 3] == "://"; }
  }

  /** A URL `scheme://host/path` is labelled with its host. */
  lemma HostOfSchemeUrl(scheme: string, host: string, path: string)
    requires '/' !in scheme && '/' !in host
    ensures GetHostName(scheme + "://" + host + "/" + path) == StripWww(host)
  {
    var u := scheme + "://" + host + "/" + path;
    var a := scheme + ":";
    assert '/' !in a by { assert forall i | 0 <= i < |scheme| :: a[i] == scheme[i]; }
    assert u == a + "//" + (host + "/" + path);
    SplitAtDoubleSlash(a, host + "/" + path);
    SplitAtFirstSlash(host, path);
    assert OccursAt(u, "://", |scheme|) by { assert u[|scheme|..|scheme| + 3] == "://"; }
  }

  /** A bare host without "://" is labelled with itself. */
  lemma HostOfBareHost(host: string)
    requires '/' !in host && !HasScheme(host)
    ensures GetHostName(host) == StripWww(host)
  {
    SplitSlashFree(host);
  }

  /** A URL without "://" is labelled with the text before its first '/', a port included. */
  lemma HostOfPlainUrl(host: string, path: string)
    requires '/' !in host && !HasScheme(host + "/" + path)
    ensures GetHostName(host + "/" + path) == StripWww(host)
  {
    SplitAtFirstSlash(host, path);
  }

  /** Without a ':' the string cannot contain "://". */
  lemma NoColonNoScheme(s: string)
    requires ':' !in s
    ensures !HasScheme(s)
  {
    forall j: nat ensures !OccursAt(s, "://", j) {
      if j + 3 <= |s| {
        assert s[j..j + 3][0] == s[j];
      }
    }
  }

  /** A scheme URL whose host starts with "www." is labelled with the rest of the host. */
  lemma HostOfWwwUrl(scheme: string, name: string, path: string)
    requires '/' !in scheme && '/' !in name
    ensures GetHostName(scheme + "://" + ("www." + name) + "/" + path) == name
  {
    var host := "www." + name;
    assert '/' !in host by { assert forall i | 4 <= i < |host| :: host[i] == name[i - 4]; }
    HostOfSchemeUrl(scheme, host, path);
    assert host[..4] == "www.";
    assert StripWww(host) == name by { assert StripWww(host) == host[4..]; assert host[4..] == name; }
  }

  /** Only one "www." is stripped: `scheme://www.www.name` is labelled "www.name". */
  lemma OnlyOneWwwStripped(scheme: string, name: string)
    requires '/' !in scheme && '/' !in name
    ensures GetHostName(scheme + "://" + ("www." + ("www." + name))) == "www." + name
  {
    var rest := "www." + name;
    var host := "www." + rest;
    assert '/' !in host by { assert forall i | 8 <= i < |host| :: host[i] == name[i - 8]; }
    HostOfBareSchemeUrl(scheme, host);
    assert host[..4] == "www.";
    assert StripWww(host) == rest by { assert StripWww(host) == host[4..]; assert host[4..] == rest; }
  }

  /** "://" is looked for anywhere, so a URL without a scheme whose path holds one (a
      redirect query, say) is labelled with piece 2, the empty text between its slashes,
      and its own host is lost. */
  lemma SchemeInPathLosesHost(host: string, a: string, b: string)
    requires '/' !in host && '/' !in a
    ensures GetHostName(host + "/" + a + "://" + b) == ""
  {
    var u := host + "/" + a + "://" + b;
    var a' := a + ":";
    assert '/' !in a' by { assert forall i | 0 <= i < |a| :: a'[i] == a[i]; }
    assert u == host + "/" + (a' + "//" + b);
    SplitAtFirstSlash(host, a' + "//" + b);
    SplitAtDoubleSlash(a', b);
    var i := |host| + 1 + |a|;
    assert OccursAt(u, "://", i) by { assert u[i..i + 3] == "://"; }
  }

  /** "https://www.example.com/" followed by any path is labelled "example.com". */
  lemma WwwExample(path: string)
    ensures GetHostName("https" + "://" + "www.example.com" + "/" + path) == "example.com"
  {
    assert "www." + "example.com" == "www.example.com";
    HostOfWwwUrl("https", "example.com", path);
  }

  /** "example.com/" followed by a path without ':' is labelled "example.com". */
  lemma PlainExample(path: string)
    requires ':' !in path
    ensures GetHostName("example.com" + "/" + path) == "example.com"
  {
    NoColonNoScheme("example.com" + "/" + path);
    HostOfPlainUrl("example.com", path);
    assert !StartsWithWww("example.com") by { assert "example.com"[..4] == "exam"; }
  }

  /** "https://sub.example.com" is labelled with all of its host: only "www." is stripped. */
  lemma SubdomainExample()
    ensures GetHostName("https" + "://" + "sub.example.com") == "sub.example.com"
  {
    HostOfBareSchemeUrl("https", "sub.example.com");
    assert !StartsWithWww("sub.example.com") by { assert "sub.example.com"[..4] == "sub."; }
  }
}
