/** Iglu schema URIs, `iglu:<vendor>/<name>/<format>/<major>-<minor>-<patch>`, and the
    regular expression `SCHEMA_PATTERN` of src/validator.ts:11 written as a parser. */
module Iglu {
  import opened Wrappers
  import opened Text

  /** The four capture groups of `SCHEMA_PATTERN`; the version stays the string it was matched as. */
  datatype IgluUri = IgluUri(vendor: string, name: string, format: string, version: string)

  predicate IsAlnum(c: char) {
    'a' <= c <= 'z' || 'A' <= c <= 'Z' || '0' <= c <= '9'
  }

  /** `[a-zA-Z0-9_.-]` */
  predicate IsVendorChar(c: char) {
    IsAlnum(c) || c == '_' || c == '.' || c == '-'
  }

  /** `[a-zA-Z0-9_-]`: like a vendor character but without the dot. */
  predicate IsNameChar(c: char) {
    IsAlnum(c) || c == '_' || c == '-'
  }

  predicate IsVendor(s: string) {
    |s| > 0 && forall i :: 0 <= i < |s| ==> IsVendorChar(s[i])
  }

  predicate IsName(s: string) {
    |s| > 0 && forall i :: 0 <= i < |s| ==> IsNameChar(s[i])
  }

  /** `[1-9][0-9]*` */
  predicate IsMajor(s: string) {
    |s| > 0 && '1' <= s[0] <= '9' && AllDigits(s)
  }

  /** `0|[1-9][0-9]*`: zero, or a number without a leading zero. */
  predicate IsMinor(s: string) {
    s == "0" || IsMajor(s)
  }

  /** `[1-9][0-9]*(?:-(?:0|[1-9][0-9]*)){2}` */
  predicate IsVersion(v: string) {
    var p := Split(v, '-');
    |p| == 3 && IsMajor(p[0]) && IsMinor(p[1]) && IsMinor(p[2])
  }

  predicate WellFormed(u: IgluUri) {
    IsVendor(u.vendor) && IsName(u.name) && IsName(u.format) && IsVersion(u.version)
  }

  function Segments(u: IgluUri): seq<string> {
    [u.vendor, u.name, u.format, u.version]
  }

  /** The canonical string form of a URI. */
  function Render(u: IgluUri): string {
    Scheme + Join(Segments(u), '/')
  }

  const Scheme := "iglu:"

  /** `SCHEMA_PATTERN.exec(s)`: the capture groups when the whole string matches, `None` otherwise.
      None of the character classes contains `/`, so the groups are the `/`-separated parts. */
  function ParseUri(s: string): (r: Option<IgluUri>)
    ensures r.Some? ==> WellFormed(r.value) && Render(r.value) == s
  {
    if !StartsWith(s, Scheme) then None
    else
      var parts := Split(s[|Scheme|..], '/');
      if |parts| != 4 then None
      else
        var u := IgluUri(parts[0], parts[1], parts[2], parts[3]);
        if !WellFormed(u) then None
        else
          JoinSplit(s[|Scheme|..], '/');
          assert Segments(u) == parts;
          assert s == s[..|Scheme|] + s[|Scheme|..];
          Some(u)
  }

  /** No part of a well-formed URI contains a slash. */
  lemma VersionHasNoSlash(v: string)
    requires IsVersion(v)
    ensures '/' !in v
  {
    var p := Split(v, '-');
    forall i | 0 <= i < |p| ensures '/' !in p[i] {
      assert AllDigits(p[i]);
    }
    JoinAvoids(p, '-', '/');
    JoinSplit(v, '-');
  }

  lemma WellFormedSegmentsHaveNoSlash(u: IgluUri)
    requires WellFormed(u)
    ensures forall i :: 0 <= i < 4 ==> '/' !in Segments(u)[i]
  {
    VersionHasNoSlash(u.version);
    assert forall j :: 0 <= j < |u.vendor| ==> u.vendor[j] != '/';
    assert forall j :: 0 <= j < |u.name| ==> u.name[j] != '/';
    assert forall j :: 0 <= j < |u.format| ==> u.format[j] != '/';
  }

  /** Every well-formed URI is accepted by the pattern, with its own parts as the groups. */
  lemma ParseRender(u: IgluUri)
    requires WellFormed(u)
    ensures ParseUri(Render(u)) == Some(u)
  {
    WellFormedSegmentsHaveNoSlash(u);
    SplitJoin(Segments(u), '/');
    var s := Render(u);
    assert s[|Scheme|..] == Join(Segments(u), '/');
  }

  /** The pattern accepts exactly the renderings of well-formed URIs. */
  lemma ParseUriExact(s: string)
    ensures ParseUri(s).Some? <==> exists u :: WellFormed(u) && Render(u) == s
  {
    if exists u :: WellFormed(u) && Render(u) == s {
      var u :| WellFormed(u) && Render(u) == s;
      ParseRender(u);
    }
  }

  /** The second `/`-separated segment of a rendered URI is its name. */
  lemma RenderSecondSegment(u: IgluUri)
    requires WellFormed(u)
    ensures var parts := Split(Render(u), '/'); |parts| == 4 && parts[1] == u.name
  {
    WellFormedSegmentsHaveNoSlash(u);
    var rest := Join(Segments(u)[1..], '/');
    assert Join(Segments(u), '/') == u.vendor + ['/'] + rest;
    assert Render(u) == (Scheme + u.vendor) + ['/'] + rest;
    assert '/' !in Scheme + u.vendor;
    SplitAfterSegment(Scheme + u.vendor, '/', rest);
    SplitJoin(Segments(u)[1..], '/');
  }

  /** `[repo, 'schemas', vendor, name, format, version].join('/')`, the URL asked of a repository. */
  function FetchUrl(repo: string, u: IgluUri): string {
    Join([repo, "schemas"] + Segments(u), '/')
  }

  /** The URL asked of a repository is the repository, `/schemas/`, and the URI without its
      `iglu:` scheme. */
  lemma FetchUrlShape(repo: string, u: IgluUri)
    ensures FetchUrl(repo, u) == repo + "/schemas/" + Render(u)[|Scheme|..]
  {
    var path := Join(Segments(u), '/');
    JoinCons("schemas", Segments(u), '/');
    JoinCons(repo, ["schemas"] + Segments(u), '/');
    assert [repo, "schemas"] + Segments(u) == [repo] + (["schemas"] + Segments(u));
    assert Render(u)[|Scheme|..] == path;
    assert repo + "/" + ("schemas" + "/" + path) == repo + "/schemas/" + path;
  }
}
