/**
 * The client side of an `appV1` repository: URLs of the form
 * `appV1://site/namespace/repo`, parsed with the regular expression
 * `^(.+)://(.+)/(.+)/(.+)$`, and the HTTP endpoints under
 * `http://site/app/v1/namespace/repo`.
 *
 * The network is not modelled: a request's outcome is a `Reply` value (or
 * the transport's error), supplied by a function from URL to outcome.
 */
module AppV1 {
  import opened Wrappers
  import opened GoStrings
  import opened ClientUtils

  const Prefix: string := "appV1"
  const Restful: string := "app/v1"

  // ---------------------------------------------------------------------
  // The repository pattern ^(.+)://(.+)/(.+)/(.+)$
  // ---------------------------------------------------------------------

  /** The four groups of a match: scheme, site, namespace, repository. */
  datatype Groups = Groups(scheme: string, site: string, namespace: string, repo: string)

  /** `site/namespace/repo`. */
  function PathText(site: string, namespace: string, repo: string): string
  {
    site + "/" + namespace + "/" + repo
  }

  /** The text that the four groups spell out. */
  function Spell(g: Groups): string
  {
    g.scheme + "://" + PathText(g.site, g.namespace, g.repo)
  }

  /** Each group matched at least one character. */
  predicate NonEmpty(g: Groups)
  {
    g.scheme != "" && g.site != "" && g.namespace != "" && g.repo != ""
  }

  /** The largest `i` in `[lo, hi)` with `s[i] == c`, or -1. */
  function LastIndexIn(s: string, c: char, lo: nat, hi: int): (r: int)
    requires hi <= |s|
    ensures r == -1 || (lo <= r < hi && s[r] == c)
    ensures forall i :: lo <= i < hi && s[i] == c ==> i <= r
    decreases hi - lo
  {
    if hi <= lo then -1
    else if s[hi - 1] == c then hi - 1
    else LastIndexIn(s, c, lo, hi - 1)
  }

  /** The last three groups of a match. */
  datatype Path = Path(site: string, namespace: string, repo: string)

  /** `s` cut at positions `j` and `k`, dropping the two characters there. */
  lemma CutTwice(s: string, j: nat, k: nat)
    requires j < k < |s| && s[j] == '/' && s[k] == '/'
    ensures s == PathText(s[..j], s[j + 1..k], s[k + 1..])
  {
  }

  /**
   * `(.+)/(.+)/(.+)$` on `url[start..]`, greedy: the last group starts after
   * the last '/' that leaves it non-empty, and the first group ends at the
   * last '/' that leaves the middle group non-empty.
   */
  function MatchTail(url: string, start: nat): Option<Path>
    requires start <= |url|
  {
    var k := LastIndexIn(url, '/', start + 3, |url| - 1);
    if k < 0 then None
    else
      var j := LastIndexIn(url, '/', start + 1, k - 1);
      if j < 0 then None
      else Some(Path(url[start..j], url[j + 1..k], url[k + 1..]))
  }

  /** A tail match has three non-empty groups that spell the tail. */
  lemma MatchTailSound(url: string, start: nat)
    requires start <= |url|
    ensures var r := MatchTail(url, start);
      r.Some? ==> (r.value.site != "" && r.value.namespace != "" && r.value.repo != "" &&
        url[start..] == PathText(r.value.site, r.value.namespace, r.value.repo))
  {
    var k := LastIndexIn(url, '/', start + 3, |url| - 1);
    if k < 0 {
      assert MatchTail(url, start).None?;
    } else {
      var j := LastIndexIn(url, '/', start + 1, k - 1);
      if j < 0 {
        assert MatchTail(url, start).None?;
      } else {
        MatchTailCuts(url, start, j, k);
        CutAt(url, start, j, k);
      }
    }
  }

  /** Where both searches succeed, the groups are the text around the two cuts they found. */
  lemma MatchTailCuts(url: string, start: nat, j: int, k: int)
    requires start <= |url|
    requires k == LastIndexIn(url, '/', start + 3, |url| - 1) && k >= 0
    requires j == LastIndexIn(url, '/', start + 1, k - 1) && j >= 0
    ensures start < j && j + 1 < k && k + 1 < |url| && url[j] == '/' && url[k] == '/'
    ensures MatchTail(url, start) == Some(Path(url[start..j], url[j + 1..k], url[k + 1..]))
  {
  }

  /** `CutTwice`, read at the URL's own positions. */
  lemma CutAt(url: string, start: nat, j: nat, k: nat)
    requires start <= j < k < |url| && url[j] == '/' && url[k] == '/'
    ensures url[start..] == PathText(url[start..j], url[j + 1..k], url[k + 1..])
  {
    var tail := url[start..];
    CutTwice(tail, j - start, k - start);
    assert tail[..j - start] == url[start..j];
    assert tail[j - start + 1..k - start] == url[j + 1..k];
    assert tail[k - start + 1..] == url[k + 1..];
  }

  /** Does "://" occur at position `p`? */
  predicate SeparatorAt(url: string, p: int)
  {
    0 <= p && p + 3 <= |url| && url[p..p + 3] == "://"
  }

  /**
   * The greedy first group: try "://" at `p`, `p - 1`, ..., 1, and take the
   * first position whose tail matches.
   */
  function MatchFrom(url: string, p: int): Option<Groups>
    decreases p
  {
    if p < 1 then None
    else if SeparatorAt(url, p) && MatchTail(url, p + 3).Some? then
      var path := MatchTail(url, p + 3).value;
      Some(Groups(url[..p], path.site, path.namespace, path.repo))
    else MatchFrom(url, p - 1)
  }

  /** Whatever the search finds has four non-empty groups that spell the URL. */
  lemma {:induction false} MatchFromSound(url: string, p: int)
    ensures var r := MatchFrom(url, p); r.Some? ==> NonEmpty(r.value) && Spell(r.value) == url
    decreases p
  {
    if p >= 1 {
      if SeparatorAt(url, p) && MatchTail(url, p + 3).Some? {
        MatchTailSound(url, p + 3);
        SeparatorSplits(url, p);
      } else {
        MatchFromSound(url, p - 1);
      }
    }
  }

  /** A separator at `p` splits the URL into the text before it and the text after it. */
  lemma SeparatorSplits(url: string, p: int)
    requires SeparatorAt(url, p)
    ensures url == url[..p] + "://" + url[p + 3..]
  {
    assert url == url[..p] + url[p..p + 3] + url[p + 3..];
  }

  /**
   * `repoRegexp.FindStringSubmatch(url)`: `.` does not match a line feed, so
   * a URL holding one never matches; otherwise the greedy first group is
   * found by `MatchFrom`.
   */
  function MatchRepo(url: string): Option<Groups>
  {
    if '\n' in url then None else MatchFrom(url, |url| - 3)
  }

  /** A match of the whole pattern has four non-empty groups that spell a URL free of line feeds. */
  lemma MatchRepoSound(url: string)
    ensures var r := MatchRepo(url); r.Some? ==> NonEmpty(r.value) && Spell(r.value) == url && '\n' !in url
  {
    if '\n' !in url {
      MatchFromSound(url, |url| - 3);
    }
  }

  /** A successful search from `p` uses a separator at or below `p`; positions whose tail fails are skipped. */
  lemma {:induction false} MatchFromSkips(url: string, p: int, q: int)
    requires q <= p
    requires forall i :: q < i <= p ==> !SeparatorAt(url, i) || (i + 3 <= |url| && MatchTail(url, i + 3).None?)
    ensures MatchFrom(url, p) == MatchFrom(url, q)
    decreases p - q
  {
    if q < p && p >= 1 {
      MatchFromSkips(url, p - 1, q);
    }
  }

  /** Every '/' of `site/namespace/repo` past the site is one of the two separators, when namespace and repository hold none. */
  lemma SlashesOfPath(site: string, namespace: string, repo: string)
    requires '/' !in namespace && '/' !in repo
    ensures var t := PathText(site, namespace, repo);
      var s1, s2 := |site|, |site| + 1 + |namespace|;
      && t[s1] == '/' && t[s2] == '/'
      && (forall i :: s1 < i < |t| && i != s2 ==> t[i] != '/')
  {
    var t := PathText(site, namespace, repo);
    var s1, s2 := |site|, |site| + 1 + |namespace|;
    forall i | s1 < i < |t| && i != s2
      ensures t[i] != '/'
    {
      if i < s2 {
        assert t[i] == namespace[i - s1 - 1];
      } else {
        assert t[i] == repo[i - s2 - 1];
      }
    }
  }

  /**
   * A tail `site/namespace/repo` whose namespace and repository hold no '/'
   * matches with exactly those groups (the site may hold '/').
   */
  lemma MatchTailExact(url: string, start: nat, site: string, namespace: string, repo: string)
    requires start <= |url|
    requires site != "" && namespace != "" && repo != ""
    requires '/' !in namespace && '/' !in repo
    requires url[start..] == PathText(site, namespace, repo)
    ensures MatchTail(url, start) == Some(Path(site, namespace, repo))
  {
    var s1 := start + |site|;
    var s2 := s1 + 1 + |namespace|;
    assert LastIndexIn(url, '/', start + 3, |url| - 1) == s2 by {
      SlashesAfter(url, start, site, namespace, repo);
    }
    assert LastIndexIn(url, '/', start + 1, s2 - 1) == s1 by {
      SlashesAfter(url, start, site, namespace, repo);
    }
    PiecesAfter(url, start, site, namespace, repo);
  }

  /** `SlashesOfPath`, read at the URL's own positions. */
  lemma SlashesAfter(url: string, start: nat, site: string, namespace: string, repo: string)
    requires start <= |url|
    requires '/' !in namespace && '/' !in repo
    requires url[start..] == PathText(site, namespace, repo)
    ensures var s1, s2 := start + |site|, start + |site| + 1 + |namespace|;
      && s2 < |url| && url[s1] == '/' && url[s2] == '/'
      && (forall i :: s1 < i < |url| && i != s2 ==> url[i] != '/')
  {
    var t := url[start..];
    SlashesOfPath(site, namespace, repo);
    assert forall i :: start <= i < |url| ==> url[i] == t[i - start];
  }

  /** `PathPieces`, read at the URL's own positions. */
  lemma PiecesAfter(url: string, start: nat, site: string, namespace: string, repo: string)
    requires start <= |url|
    requires url[start..] == PathText(site, namespace, repo)
    ensures var s1, s2 := start + |site|, start + |site| + 1 + |namespace|;
      && url[start..s1] == site
      && url[s1 + 1..s2] == namespace
      && url[s2 + 1..] == repo
  {
    var t := url[start..];
    PathPieces(site, namespace, repo);
    assert url[start..start + |site|] == t[..|site|];
    assert url[start + |site| + 1..start + |site| + 1 + |namespace|] == t[|site| + 1..|site| + 1 + |namespace|];
    assert url[start + |site| + 2 + |namespace|..] == t[|site| + 2 + |namespace|..];
  }

  /** The pieces of `site/namespace/repo`, read back by position. */
  lemma PathPieces(site: string, namespace: string, repo: string)
    ensures var t := PathText(site, namespace, repo);
      && t[..|site|] == site
      && t[|site| + 1..|site| + 1 + |namespace|] == namespace
      && t[|site| + 2 + |namespace|..] == repo
  {
  }

  /** Any split of `url[start..]` into three non-empty '/'-separated parts lets the tail match (perhaps differently). */
  lemma MatchTailSome(url: string, start: nat, site: string, namespace: string, repo: string)
    requires start <= |url|
    requires site != "" && namespace != "" && repo != ""
    requires url[start..] == PathText(site, namespace, repo)
    ensures MatchTail(url, start).Some?
  {
    var t := url[start..];
    var s1 := start + |site|;
    var s2 := s1 + 1 + |namespace|;
    assert url[s1] == t[|site|] == '/';
    assert url[s2] == t[|site| + 1 + |namespace|] == '/';
  }

  /** The search finds a match from any position at or above a separator whose tail matches. */
  lemma {:induction false} MatchFromFinds(url: string, p: int, p0: int)
    requires 1 <= p0 <= p
    requires SeparatorAt(url, p0) && MatchTail(url, p0 + 3).Some?
    ensures MatchFrom(url, p).Some?
    decreases p
  {
    if p > p0 {
      if !SeparatorAt(url, p) || MatchTail(url, p + 3).None? {
        MatchFromFinds(url, p - 1, p0);
        assert MatchFrom(url, p) == MatchFrom(url, p - 1);
      }
    }
  }

  /** The pattern matches every line-feed-free URL that some choice of four non-empty groups spells. */
  lemma MatchRepoComplete(url: string, g: Groups)
    requires NonEmpty(g) && Spell(g) == url && '\n' !in url
    ensures MatchRepo(url).Some?
  {
    var p0 := |g.scheme|;
    assert url[p0..p0 + 3] == "://";
    assert url[p0 + 3..] == PathText(g.site, g.namespace, g.repo);
    MatchTailSome(url, p0 + 3, g.site, g.namespace, g.repo);
    MatchFromFinds(url, |url| - 3, p0);
  }

  /** The URL of an `appV1` repository, `String()`'s text. */
  function RepoURL(site: string, namespace: string, repo: string): string
  {
    Prefix + "://" + PathText(site, namespace, repo)
  }

  /** Past the prefix, `appV1://site/namespace/repo` with '/'-free fields holds no second "://" and no line feed. */
  lemma RepoURLShape(site: string, namespace: string, repo: string)
    requires namespace != ""
    requires '/' !in site && '/' !in namespace && '/' !in repo
    requires '\n' !in site && '\n' !in namespace && '\n' !in repo
    ensures var url := RepoURL(site, namespace, repo);
      && '\n' !in url
      && SeparatorAt(url, 5)
      && url[..5] == Prefix && url[8..] == PathText(site, namespace, repo)
      && forall i :: 5 < i <= |url| - 3 ==> !SeparatorAt(url, i)
  {
    var url := RepoURL(site, namespace, repo);
    var t := PathText(site, namespace, repo);
    assert url[8..] == t;
    assert forall i :: 8 <= i < |url| ==> url[i] == t[i - 8];
    assert '\n' !in t by {
      forall i | 0 <= i < |t|
        ensures t[i] != '\n'
      {
        if i < |site| {
          assert t[i] == site[i];
        } else if |site| < i < |site| + 1 + |namespace| {
          assert t[i] == namespace[i - |site| - 1];
        } else if i > |site| + 1 + |namespace| {
          assert t[i] == repo[i - |site| - 2 - |namespace|];
        }
      }
    }
    assert '\n' !in url by {
      forall i | 0 <= i < |url|
        ensures url[i] != '\n'
      {
        if i >= 8 {
          assert url[i] == t[i - 8];
        }
      }
    }
    NoAdjacentSlashes(site, namespace, repo);
    assert url[6] == '/' && url[7] == '/';
    assert forall i :: 5 < i <= |url| - 3 ==> !SeparatorAt(url, i);
  }

  /** `site/namespace/repo` with '/'-free fields and a non-empty namespace never holds "//". */
  lemma NoAdjacentSlashes(site: string, namespace: string, repo: string)
    requires namespace != ""
    requires '/' !in site && '/' !in namespace && '/' !in repo
    ensures var t := PathText(site, namespace, repo);
      forall p :: 0 <= p < |t| - 1 ==> !(t[p] == '/' && t[p + 1] == '/')
  {
    var t := PathText(site, namespace, repo);
    SlashesOfPath(site, namespace, repo);
    forall p | 0 <= p < |t| - 1
      ensures !(t[p] == '/' && t[p + 1] == '/')
    {
      if p < |site| {
        assert t[p] == site[p];
      }
    }
  }

  /**
   * Printing then parsing: for non-empty fields without '/' or line feeds,
   * `appV1://site/namespace/repo` matches with exactly those groups.
   */
  lemma ParseRepoURL(site: string, namespace: string, repo: string)
    requires site != "" && namespace != "" && repo != ""
    requires '/' !in site && '/' !in namespace && '/' !in repo
    requires '\n' !in site && '\n' !in namespace && '\n' !in repo
    ensures MatchRepo(RepoURL(site, namespace, repo)) == Some(Groups(Prefix, site, namespace, repo))
  {
    var url := RepoURL(site, namespace, repo);
    RepoURLShape(site, namespace, repo);
    MatchTailExact(url, 8, site, namespace, repo);
    MatchRepoAt(url, 5, Path(site, namespace, repo));
  }

  /** A URL whose last "://" is at `p` matches with the scheme before it when its tail matches. */
  lemma MatchRepoAt(url: string, p: nat, path: Path)
    requires p >= 1 && '\n' !in url
    requires SeparatorAt(url, p) && MatchTail(url, p + 3) == Some(path)
    requires forall i :: p < i <= |url| - 3 ==> !SeparatorAt(url, i)
    ensures MatchRepo(url) == Some(Groups(url[..p], path.site, path.namespace, path.repo))
  {
    MatchFromSkips(url, |url| - 3, p);
    MatchFromAt(url, p, path);
  }

  /** The search stops at a separator whose tail matches. */
  lemma MatchFromAt(url: string, p: int, path: Path)
    requires p >= 1 && SeparatorAt(url, p) && MatchTail(url, p + 3) == Some(path)
    ensures MatchFrom(url, p) == Some(Groups(url[..p], path.site, path.namespace, path.repo))
  {
  }

  // ---------------------------------------------------------------------
  // UpdateClientAppV1Repo
  // ---------------------------------------------------------------------

  /** A copy of the repository's fields: what the value-receiver methods see. */
  datatype RepoRef = RepoRef(site: string, namespace: string, repo: string)

  /** `Supported`: the URL starts with "appV1://". */
  function Supported(url: string): bool
  {
    Prefix + "://" <= url
  }

  /** `NRString`: "namespace/repo". */
  function NRString(r: RepoRef): string
  {
    r.namespace + "/" + r.repo
  }

  /** `String`: the full `appV1` URL. */
  function String(r: RepoRef): string
  {
    RepoURL(r.site, r.namespace, r.repo)
  }

  /** `generateURL`: the HTTP base of the repository (plain http only). */
  function GenerateURL(r: RepoRef): string
  {
    "http://" + r.site + "/" + Restful + "/" + r.namespace + "/" + r.repo
  }

  /** The request URLs of `GetFile`, `GetMetaSign`, `GetMeta`, `GetPublicKey` and `Put`. */
  function FileURL(r: RepoRef, name: string): string
  {
    GenerateURL(r) + "/blob/" + name
  }

  function MetaSignURL(r: RepoRef): string
  {
    GenerateURL(r) + "/metasign"
  }

  function MetaURL(r: RepoRef): string
  {
    GenerateURL(r) + "/meta"
  }

  function PublicKeyURL(r: RepoRef): string
  {
    GenerateURL(r) + "/pubkey"
  }

  function PutURL(r: RepoRef, name: string): string
  {
    GenerateURL(r) + "/" + name
  }

  /** The HTTP base ends with `NRString`, and every URL the client prints is one `New` accepts. */
  lemma Printed(r: RepoRef)
    ensures GenerateURL(r) == "http://" + r.site + "/app/v1/" + NRString(r)
    ensures Supported(String(r))
  {
    assert String(r) == Prefix + "://" + (r.site + "/" + r.namespace + "/" + r.repo);
  }

  /**
   * Whatever `New` accepts, `String` gives back: a match with scheme
   * "appV1" spells the URL, so the fields print to the URL they came from,
   * and that URL is `Supported`.
   */
  lemma MatchedPrintsBack(url: string)
    requires MatchRepo(url).Some? && MatchRepo(url).value.scheme == Prefix
    ensures var g := MatchRepo(url).value; String(RepoRef(g.site, g.namespace, g.repo)) == url
    ensures Supported(url)
  {
    MatchRepoSound(url);
    Printed(RepoRef(MatchRepo(url).value.site, MatchRepo(url).value.namespace, MatchRepo(url).value.repo));
  }

  /** A supported URL need not parse: "appV1://a/b" has too few parts. */
  lemma SupportedButInvalid()
    ensures Supported("appV1://a/b")
    ensures MatchRepo("appV1://a/b").None?
  {
    var url := "appV1://a/b";
    assert Prefix + "://" == url[..8];
    assert LastIndexIn(url, '/', 11, |url| - 1) == -1;
    assert MatchTail(url, 8).None?;
    forall i | 0 < i <= |url| - 3 && i != 5
      ensures !SeparatorAt(url, i)
    {
      assert url[i..i + 3][0] == url[i] != ':';
    }
    MatchFromSkips(url, |url| - 3, 0);
  }

  /** Distinct repositories, with '/'-free fields, have distinct HTTP bases. */
  lemma GenerateURLInjective(a: RepoRef, b: RepoRef)
    requires '/' !in a.site && '/' !in a.namespace && '/' !in a.repo
    requires '/' !in b.site && '/' !in b.namespace && '/' !in b.repo
    requires a.site != "" && a.namespace != "" && a.repo != ""
    requires b.site != "" && b.namespace != "" && b.repo != ""
    requires GenerateURL(a) == GenerateURL(b)
    ensures a == b
  {
    var ta := a.site + "/" + Restful + "/" + a.namespace + "/" + a.repo;
    var tb := b.site + "/" + Restful + "/" + b.namespace + "/" + b.repo;
    GenerateURLBase(a);
    GenerateURLBase(b);
    CancelPrefix("http://", ta, tb);
    FieldsOfBase(a.site, a.namespace, a.repo, ta);
    FieldsOfBase(b.site, b.namespace, b.repo, tb);
  }

  lemma GenerateURLBase(r: RepoRef)
    ensures GenerateURL(r) == "http://" + (r.site + "/" + Restful + "/" + r.namespace + "/" + r.repo)
  {
  }

  lemma CancelPrefix(p: string, x: string, y: string)
    requires p + x == p + y
    ensures x == y
  {
    assert x == (p + x)[|p|..];
    assert y == (p + y)[|p|..];
  }

  /** The position of the first '/' in `s`, or `|s|`. */
  function FirstSlash(s: string): (r: nat)
    ensures r <= |s| && (r < |s| ==> s[r] == '/')
    ensures forall i :: 0 <= i < r ==> s[i] != '/'
  {
    if |s| == 0 || s[0] == '/' then 0 else 1 + FirstSlash(s[1..])
  }

  /** `site/app/v1/namespace/repo` with '/'-free fields: each field can be read back by cutting at slashes. */
  lemma FieldsOfBase(site: string, namespace: string, repo: string, t: string)
    requires '/' !in site && '/' !in namespace && '/' !in repo
    requires t == site + "/" + Restful + "/" + namespace + "/" + repo
    ensures FirstSlash(t) == |site| && t[..|site|] == site
    ensures var u := t[|site| + 8..]; u == namespace + "/" + repo
    ensures var u := t[|site| + 8..]; FirstSlash(u) == |namespace| && u[..|namespace|] == namespace && u[|namespace| + 1..] == repo
  {
    assert t[|site|] == '/';
    assert forall i :: 0 <= i < |site| ==> t[i] == site[i];
    var u := t[|site| + 8..];
    assert u == namespace + "/" + repo;
    assert u[|namespace|] == '/';
    assert forall i :: 0 <= i < |namespace| ==> u[i] == namespace[i];
  }

  /**
   * The fixed endpoints never collide with a file's URL, but `Put` of an
   * application called "meta" posts to the meta data's URL.
   */
  lemma EndpointURLs(r: RepoRef, name: string)
    ensures FileURL(r, name) != MetaURL(r) && FileURL(r, name) != MetaSignURL(r)
    ensures FileURL(r, name) != PublicKeyURL(r)
    ensures MetaURL(r) != MetaSignURL(r) && MetaURL(r) != PublicKeyURL(r) && MetaSignURL(r) != PublicKeyURL(r)
    ensures PutURL(r, "meta") == MetaURL(r)
  {
    var g := GenerateURL(r);
    var n := |g|;
    assert FileURL(r, name)[n + 1] == 'b' && MetaURL(r)[n + 1] == 'm';
    assert MetaSignURL(r)[n + 1] == 'm' && PublicKeyURL(r)[n + 1] == 'p';
    assert |MetaURL(r)| == n + 5 && |MetaSignURL(r)| == n + 9;
  }

  /**
   * `UpdateClientAppV1Repo`. `New` has a pointer receiver: it writes the
   * parsed fields into the very object it is called on (the prototype that
   * the package registers) and returns that object.
   */
  class AppV1Repo {
    var site: string
    var namespace: string
    var repo: string

    /** The zero value `&UpdateClientAppV1Repo{}`. */
    constructor ()
      ensures site == "" && namespace == "" && repo == ""
    {
      site, namespace, repo := "", "", "";
    }

    /** The value a value-receiver method is called on. */
    function Ref(): RepoRef
      reads this
    {
      RepoRef(site, namespace, repo)
    }

    /** `New(url)`: parse, check the scheme, then write the fields and return the receiver itself. */
    method New(url: string) returns (r: Result<AppV1Repo, ClientError>)
      modifies this
      ensures var m := MatchRepo(url);
        if m.Some? && m.value.scheme == Prefix then
          r == Ok(this) && site == m.value.site && namespace == m.value.namespace && repo == m.value.repo
        else
          r == Err(RepoInvalid) && Ref() == old(Ref())
      ensures r.Ok? ==> String(Ref()) == url && Supported(url)
    {
      var parts := MatchRepo(url);
      if parts.None? || parts.value.scheme != Prefix {
        return Err(RepoInvalid);
      }
      site := parts.value.site;
      namespace := parts.value.namespace;
      repo := parts.value.repo;
      MatchedPrintsBack(url);
      return Ok(this);
    }
  }

  // ---------------------------------------------------------------------
  // Requests over an abstract transport
  // ---------------------------------------------------------------------

  /** A response: its status code, its status text, and the outcome of reading its body. */
  datatype Reply = Reply(statusCode: int, status: string, body: Result<Bytes, string>)

  /** What a request yields: a response, or the transport's error. */
  type Exchange = Result<Reply, string>

  const StatusOK: int := 200

  /**
   * `getFromURL`: a transport error, then a body-read error, then any
   * status other than 200 (reported by its status text) is a failure;
   * otherwise the body comes back unchanged.
   */
  function GetFromURL(resp: Exchange): (r: Result<Bytes, string>)
    ensures r.Ok? <==> resp.Ok? && resp.value.body.Ok? && resp.value.statusCode == StatusOK
    ensures r.Ok? ==> r.value == resp.value.body.value
    ensures resp.Err? ==> r == Err(resp.error)
    ensures resp.Ok? && resp.value.body.Err? ==> r == Err(resp.value.body.error)
    ensures resp.Ok? && resp.value.body.Ok? && resp.value.statusCode != StatusOK ==> r == Err(resp.value.status)
  {
    match resp
    case Err(e) => Err(e)
    case Ok(reply) =>
      match reply.body
      case Err(e) => Err(e)
      case Ok(body) =>
        if reply.statusCode != StatusOK then Err(reply.status) else Ok(body)
  }

  function GetFile(r: RepoRef, name: string, get: string -> Exchange): Result<Bytes, string>
  {
    GetFromURL(get(FileURL(r, name)))
  }

  function GetMetaSign(r: RepoRef, get: string -> Exchange): Result<Bytes, string>
  {
    GetFromURL(get(MetaSignURL(r)))
  }

  function GetMeta(r: RepoRef, get: string -> Exchange): Result<Bytes, string>
  {
    GetFromURL(get(MetaURL(r)))
  }

  function GetPublicKey(r: RepoRef, get: string -> Exchange): Result<Bytes, string>
  {
    GetFromURL(get(PublicKeyURL(r)))
  }

  /**
   * Each getter asks for its own literal URL under the repository's HTTP base
   * and applies the checks of `getFromURL` to the response.
   */
  lemma GettersAsk(r: RepoRef, name: string, get: string -> Exchange)
    ensures var base := "http://" + r.site + "/app/v1/" + r.namespace + "/" + r.repo;
      && GetFile(r, name, get) == GetFromURL(get(base + "/blob/" + name))
      && GetMetaSign(r, get) == GetFromURL(get(base + "/metasign"))
      && GetMeta(r, get) == GetFromURL(get(base + "/meta"))
      && GetPublicKey(r, get) == GetFromURL(get(base + "/pubkey"))
  {
    Printed(r);
    assert GenerateURL(r) == "http://" + r.site + "/app/v1/" + r.namespace + "/" + r.repo;
  }

  /** The JSON reply of the list endpoint. */
  datatype ListReply = ListReply(message: string, content: seq<string>)

  /**
   * `List`: the same checks as `getFromURL` on the base URL, then the body
   * is decoded as JSON (`unmarshal` stands for `json.Unmarshal`) and its
   * `Content` returned.
   */
  function List(r: RepoRef, get: string -> Exchange, unmarshal: Bytes -> Result<ListReply, string>): (res: Result<seq<string>, string>)
    ensures var fetched := GetFromURL(get(GenerateURL(r)));
      && (fetched.Err? ==> res == Err(fetched.error))
      && (fetched.Ok? && unmarshal(fetched.value).Err? ==> res == Err(unmarshal(fetched.value).error))
      && (fetched.Ok? && unmarshal(fetched.value).Ok? ==> res == Ok(unmarshal(fetched.value).value.content))
  {
    match get(GenerateURL(r))
    case Err(e) => Err(e)
    case Ok(reply) =>
      if reply.body.Err? then Err(reply.body.error)
      else if reply.statusCode != StatusOK then Err(reply.status)
      else
        match unmarshal(reply.body.value)
        case Err(e) => Err(e)
        case Ok(ret) => Ok(ret.content)
  }

  /**
   * `Put`: post the content to `generateURL()/name` (`post` stands for
   * `http.Post`) and read the body; the result is only the transport or
   * body-read error, whatever the status.
   */
  function Put(r: RepoRef, name: string, content: Bytes, post: (string, Bytes) -> Exchange): (err: Option<string>)
    ensures var resp := post(PutURL(r, name), content);
      && (resp.Err? ==> err == Some(resp.error))
      && (resp.Ok? && resp.value.body.Err? ==> err == Some(resp.value.body.error))
      && (resp.Ok? && resp.value.body.Ok? ==> err.None?)
  {
    match post(PutURL(r, name), content)
    case Err(e) => Some(e)
    case Ok(reply) => if reply.body.Err? then Some(reply.body.error) else None
  }

  /** `Put` never looks at the status: replies that differ only in status give the same result. */
  lemma PutIgnoresStatus(r: RepoRef, name: string, content: Bytes, post1: (string, Bytes) -> Exchange, post2: (string, Bytes) -> Exchange)
    requires post1(PutURL(r, name), content).Ok? && post2(PutURL(r, name), content).Ok?
    requires post1(PutURL(r, name), content).value.body == post2(PutURL(r, name), content).value.body
    ensures Put(r, name, content, post1) == Put(r, name, content, post2)
  {
  }
}
