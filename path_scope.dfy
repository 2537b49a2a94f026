/**
 * The "path scope" setting of a file-path column: it shows a file URL in
 * full, relative to the site's home URL (with a leading `/`), or relative to
 * the uploads base URL. `https://` is read as `http://` in the value and in
 * the URL it is compared with. The home URL (`home_url('/')`) and the uploads
 * base URL (`wp_upload_dir()['baseurl']`) are parameters.
 */
module PathScope {
  import opened Php

  const Full: string := "full"
  const RelativeDomain: string := "relative-domain"
  const RelativeUploads: string := "relative-uploads"

  const Https: string := "https://"
  const Http: string := "http://"

  /** The setting's options with their defaults. */
  function DefineOptions(): (options: map<string, string>)
    ensures options.Keys == {"path_scope"} && options["path_scope"] == Full
  {
    map["path_scope" := Full]
  }

  /** Every `https://` rewritten to `http://`: none is left, and a URL without one is kept. */
  function NormalizeScheme(url: string): (r: string)
    ensures !Contains(r, Https)
    ensures !Contains(url, Https) ==> r == url
  {
    NoHttpsLeft(url);
    if !Contains(url, Https) then
      StrReplaceAbsent(Https, Http, url);
      StrReplace(Https, Http, url)
    else StrReplace(Https, Http, url)
  }

  /** `w` has no `h` in it. */
  ghost predicate WithoutH(w: string)
  {
    forall k :: 0 <= k < |w| ==> w[k] != 'h'
  }

  /** A string starts with a character and a rest exactly when its first character is that one and its tail starts with the rest. */
  lemma PrefixOfCons(d: char, w: string, c: char, t: string)
    ensures [d] + w <= [c] + t <==> d == c && w <= t
  {
    var a, b := [d] + w, [c] + t;
    assert a[0] == d && a[1..] == w;
    assert b[0] == c && b[1..] == t;
    if a <= b {
      assert w == b[1..|a|];
    }
    if d == c && w <= t {
      assert a == b[..|a|];
    }
  }

  /** Where `https://` occurs there is an `h`, and an `s` four characters on. */
  lemma HttpsAt(r: string, i: int)
    ensures OccursAt(r, Https, i) ==> r[i] == 'h' && r[i + 4] == 's'
  {
    if OccursAt(r, Https, i) {
      assert r[i..i + |Https|] == Https;
    }
  }

  /**
   * What the rewrite writes starts with `h`, so a start without `h` of the
   * rewritten string is a start of the original.
   */
  lemma {:induction false} RewrittenStartWithoutH(v: string, w: string)
    requires WithoutH(w)
    ensures w <= StrReplace(Https, Http, v) ==> w <= v
    decreases |v|
  {
    var r := StrReplace(Https, Http, v);
    if w != [] {
      if Https <= v {
        assert r[0] == 'h';
      } else if v != [] {
        RewrittenStartWithoutH(v[1..], w[1..]);
        assert r == [v[0]] + StrReplace(Https, Http, v[1..]);
        assert w <= r ==> w[0] == v[0] && w[1..] <= StrReplace(Https, Http, v[1..]);
        assert w[0] == v[0] && w[1..] <= v[1..] ==> w <= v;
      }
    }
  }

  /** `http://` followed by a string without `https://` has none either: its only `h` is followed by `ttp:`. */
  lemma HttpThenClean(t: string)
    requires !Contains(t, Https)
    ensures !Contains(Http + t, Https)
  {
    var r := Http + t;
    forall i ensures !OccursAt(r, Https, i) {
      if i >= |Http| {
        OccursAfterPrefix(Http, t, Https, i - |Http|);
      } else if 0 <= i {
        HttpsAt(r, i);
        assert r[i] == Http[i] && r[4] == ':';
      }
    }
  }

  /**
   * A character in front of a string without `https://` forms one only when
   * the character is `h` and the string starts with `ttps://`.
   */
  lemma CharThenClean(c: char, v: string, t: string)
    requires !Contains(t, Https) && !(Https <= [c] + v)
    requires "ttps://" <= t ==> "ttps://" <= v
    ensures !Contains([c] + t, Https)
  {
    var r := [c] + t;
    assert Https == ['h'] + "ttps://";
    forall i ensures !OccursAt(r, Https, i) {
      if i >= 1 {
        OccursAfterPrefix([c], t, Https, i - 1);
      } else if i == 0 {
        assert OccursAt(r, Https, 0) ==> Https <= r;
        PrefixOfCons('h', "ttps://", c, t);
        PrefixOfCons('h', "ttps://", c, v);
      }
    }
  }

  /**
   * No `https://` survives the rewrite: neither one written by it (it writes
   * `http://`) nor one formed across what it writes and what it keeps.
   */
  lemma {:induction false} NoHttpsLeft(u: string)
    ensures !Contains(StrReplace(Https, Http, u), Https)
    decreases |u|
  {
    if Https <= u {
      var rest := u[|Https|..];
      NoHttpsLeft(rest);
      assert u == Https + rest;
      StrReplaceLeading(Https, Http, rest);
      HttpThenClean(StrReplace(Https, Http, rest));
    } else if u != [] {
      var v := u[1..];
      NoHttpsLeft(v);
      RewrittenStartWithoutH(v, "ttps://");
      StrReplaceStep(Https, Http, u);
      assert u == [u[0]] + v;
      CharThenClean(u[0], v, StrReplace(Https, Http, v));
    }
  }

  /**
   * The displayed path. A falsy value (null, '' or '0') shows as ''. Otherwise
   * the https-normalised value is shown, shortened by the https-normalised
   * home URL (then with a leading `/`) or uploads base URL when the scope asks
   * for it and the value starts with that URL; any other scope shows it in full.
   */
  function FormatPath(value: Option<string>, scope: string, homeUrl: string, uploadsBaseUrl: string): (r: string)
    ensures value.None? || IsFalsyString(value.value) ==> r == ""
    ensures value.Some? && !IsFalsyString(value.value) && scope != RelativeDomain && scope != RelativeUploads ==>
              r == NormalizeScheme(value.value)
    ensures value.Some? && !IsFalsyString(value.value) && scope == RelativeDomain ==>
              var file, url := NormalizeScheme(value.value), NormalizeScheme(homeUrl);
              r == if url <= file then "/" + file[|url|..] else file
    ensures value.Some? && !IsFalsyString(value.value) && scope == RelativeUploads ==>
              var file, url := NormalizeScheme(value.value), NormalizeScheme(uploadsBaseUrl);
              r == if url <= file then file[|url|..] else file
  {
    if value.None? || IsFalsyString(value.value) then ""
    else
      var file := NormalizeScheme(value.value);
      if scope == RelativeDomain then
        var url := NormalizeScheme(homeUrl);
        if StartsWith(file, url) then "/" + file[|url|..] else file
      else if scope == RelativeUploads then
        var url := NormalizeScheme(uploadsBaseUrl);
        if StartsWith(file, url) then file[|url|..] else file
      else file
  }

  /** A leading `https://` becomes `http://`, and the rest is normalised on its own. */
  lemma NormalizeSchemeHttps(rest: string)
    ensures NormalizeScheme(Https + rest) == Http + NormalizeScheme(rest)
  {
    StrReplaceLeading(Https, Http, rest);
  }

  /** A leading `http://` is kept, and the rest is normalised on its own. */
  lemma NormalizeSchemeHttp(rest: string)
    ensures NormalizeScheme(Http + rest) == Http + NormalizeScheme(rest)
  {
    RewriteKeepsHttp(rest);
  }

  /** The scan passes over `http://`: its `h` does not start `https://`, and no other character is an `h`. */
  lemma RewriteKeepsHttp(rest: string)
    ensures StrReplace(Https, Http, Http + rest) == Http + StrReplace(Https, Http, rest)
  {
    var s := Http + rest;
    var after := StrReplace(Https, Http, rest);
    assert s[1..] == "ttp://" + rest;
    assert StrReplace(Https, Http, s) == [s[0]] + StrReplace(Https, Http, s[1..]) by {
      assert s[4] != Https[4];
      StrReplaceStep(Https, Http, s);
    }
    assert StrReplace(Https, Http, "ttp://" + rest) == "ttp://" + after by {
      StrReplaceSkips(Https, Http, "ttp://", rest);
    }
    assert [s[0]] + ("ttp://" + after) == Http + after;
  }

  /** What starts a string without `https://` is itself without `https://`. */
  lemma PrefixWithoutHttps(head: string, tail: string)
    requires !Contains(head + tail, Https)
    ensures !Contains(head, Https)
  {
    forall i | OccursAt(head, Https, i) ensures OccursAt(head + tail, Https, i) {
      assert (head + tail)[i..i + |Https|] == head[i..i + |Https|];
    }
  }

  /** Relative to the domain: a file under the home URL shows as `/` and the path below it. */
  lemma RelativeDomainStripsHomeUrl(homeUrl: string, path: string, uploadsBaseUrl: string)
    requires !Contains(homeUrl + path, Https) && !IsFalsyString(homeUrl + path)
    ensures FormatPath(Some(homeUrl + path), RelativeDomain, homeUrl, uploadsBaseUrl) == "/" + path
  {
    PrefixWithoutHttps(homeUrl, path);
    assert (homeUrl + path)[|homeUrl|..] == path;
  }

  /** Relative to the uploads folder: a file under the base URL shows as the path below it, with no `/` added. */
  lemma RelativeUploadsStripsBaseUrl(uploadsBaseUrl: string, path: string, homeUrl: string)
    requires !Contains(uploadsBaseUrl + path, Https) && !IsFalsyString(uploadsBaseUrl + path)
    ensures FormatPath(Some(uploadsBaseUrl + path), RelativeUploads, homeUrl, uploadsBaseUrl) == path
  {
    PrefixWithoutHttps(uploadsBaseUrl, path);
    assert (uploadsBaseUrl + path)[|uploadsBaseUrl|..] == path;
  }

  /** The scheme of the value does not matter: `https://` and `http://` show alike. */
  lemma FormatIgnoresValueScheme(rest: string, scope: string, homeUrl: string, uploadsBaseUrl: string)
    ensures FormatPath(Some(Https + rest), scope, homeUrl, uploadsBaseUrl)
         == FormatPath(Some(Http + rest), scope, homeUrl, uploadsBaseUrl)
  {
    assert NormalizeScheme(Https + rest) == NormalizeScheme(Http + rest) by {
      NormalizeSchemeHttps(rest);
      NormalizeSchemeHttp(rest);
    }
    assert |Https + rest| > 1 && |Http + rest| > 1;
  }

  /** Nor does the scheme of the URLs it is compared with. */
  lemma FormatIgnoresUrlScheme(value: Option<string>, scope: string, homeRest: string, uploadsRest: string)
    ensures FormatPath(value, scope, Https + homeRest, Https + uploadsRest)
         == FormatPath(value, scope, Http + homeRest, Http + uploadsRest)
  {
    NormalizeSchemeHttps(homeRest);
    NormalizeSchemeHttp(homeRest);
    NormalizeSchemeHttps(uploadsRest);
    NormalizeSchemeHttp(uploadsRest);
  }

  /** The column setting object, whose path scope the settings screen sets. */
  class PathScopeSetting {
    var pathScope: string

    /** A new setting holds the default option. */
    constructor ()
      ensures pathScope == DefineOptions()["path_scope"]
    {
      pathScope := Full;
    }

    method GetPathScope() returns (scope: string)
      ensures scope == pathScope
    {
      scope := pathScope;
    }

    /** Stores the scope; always succeeds. */
    method SetPathScope(scope: string) returns (ok: bool)
      modifies this
      ensures ok && pathScope == scope
    {
      pathScope := scope;
      ok := true;
    }

    /** Formats a value under the stored scope; the original value is not used. */
    method Format(value: Option<string>, originalValue: Option<string>, homeUrl: string, uploadsBaseUrl: string)
      returns (r: string)
      ensures r == FormatPath(value, pathScope, homeUrl, uploadsBaseUrl)
    {
      var scope := GetPathScope();
      r := FormatPath(value, scope, homeUrl, uploadsBaseUrl);
    }
  }

  /** What `SetPathScope` stores, `GetPathScope` gives back, and `Format` uses. */
  method SetThenFormat(setting: PathScopeSetting, scope: string, value: Option<string>, homeUrl: string, uploadsBaseUrl: string)
    returns (ok: bool, stored: string, r: string)
    modifies setting
    ensures ok && stored == scope
    ensures r == FormatPath(value, scope, homeUrl, uploadsBaseUrl)
  {
    ok := setting.SetPathScope(scope);
    stored := setting.GetPathScope();
    r := setting.Format(value, None, homeUrl, uploadsBaseUrl);
  }
}
