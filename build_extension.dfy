/** The two manifest edits of the extension build script: bumping the minor
    version before the copy, and removing the "public/" prefix from the icon
    paths of the copied manifest. The manifest is the parsed JSON object,
    held by the class `Manifest` whose methods edit it in place. */
module BuildScript {
  import opened JsStrings
  import opened JsNumbers

  // ----- String.prototype.split and Array.prototype.join on one code unit -----

  /** `s.split(d)` for a one-unit separator: the pieces between the
      separators, in order, with an empty piece wherever two separators or a
      separator and an end meet. */
  function Split(s: JsString, d: CodeUnit): (parts: seq<JsString>)
    ensures |parts| >= 1
    ensures forall i | 0 <= i < |parts| :: d !in parts[i]
    decreases |s|
  {
    if s == [] then [[]]
    else
      var rest := Split(s[1..], d);
      if s[0] == d then [[]] + rest
      else [[s[0]] + rest[0]] + rest[1..]
  }

  /** `parts.join(d)`: the parts with one separator between neighbours. */
  function Join(parts: seq<JsString>, d: CodeUnit): JsString
    requires |parts| >= 1
    decreases |parts|
  {
    if |parts| == 1 then parts[0] else parts[0] + [d] + Join(parts[1..], d)
  }

  /** Joining the pieces of a split gives back the text. */
  lemma {:induction false} JoinSplit(s: JsString, d: CodeUnit)
    ensures Join(Split(s, d), d) == s
    decreases |s|
  {
    if s != [] {
      var rest := Split(s[1..], d);
      JoinSplit(s[1..], d);
      JoinHead(rest, d);
      var tail := if |rest| == 1 then [] else [d] + Join(rest[1..], d);
      assert s[1..] == rest[0] + tail;
      if s[0] == d {
        JoinHead([[]] + rest, d);
        assert ([[]] + rest)[1..] == rest;
        assert s == [d] + s[1..];
      } else {
        var parts := [[s[0]] + rest[0]] + rest[1..];
        JoinHead(parts, d);
        assert parts[1..] == rest[1..];
        assert s == [s[0]] + s[1..];
      }
    }
  }

  /** Splitting what was joined gives back the parts, when none of them
      holds the separator. */
  lemma {:induction false} SplitJoin(parts: seq<JsString>, d: CodeUnit)
    requires |parts| >= 1
    requires forall i | 0 <= i < |parts| :: d !in parts[i]
    ensures Split(Join(parts, d), d) == parts
    decreases |parts|, |parts[0]|
  {
    var p := parts[0];
    if p == [] {
      if |parts| > 1 {
        SplitJoin(parts[1..], d);
        SplitJoinEmptyHead(parts, d);
      }
    } else {
      var shorter := [p[1..]] + parts[1..];
      assert shorter[1..] == parts[1..];
      SplitJoin(shorter, d);
      SplitJoinLongerHead(parts, d);
    }
  }

  /** The step of `SplitJoin` for an empty first part. */
  lemma SplitJoinEmptyHead(parts: seq<JsString>, d: CodeUnit)
    requires |parts| > 1 && parts[0] == []
    requires Split(Join(parts[1..], d), d) == parts[1..]
    ensures Split(Join(parts, d), d) == parts
  {
    JoinHead(parts, d);
    SplitAtSeparator(Join(parts[1..], d), d);
    assert [[]] + parts[1..] == parts;
  }

  /** The step of `SplitJoin` for a non-empty first part: its first code
      unit comes back in front of the rest of that part. */
  lemma SplitJoinLongerHead(parts: seq<JsString>, d: CodeUnit)
    requires |parts| >= 1 && parts[0] != [] && parts[0][0] != d
    requires Split(Join([parts[0][1..]] + parts[1..], d), d) == [parts[0][1..]] + parts[1..]
    ensures Split(Join(parts, d), d) == parts
  {
    var p := parts[0];
    var shorter := [p[1..]] + parts[1..];
    assert shorter[1..] == parts[1..];
    JoinHead(parts, d);
    JoinHead(shorter, d);
    var tail := if |parts| == 1 then [] else [d] + Join(parts[1..], d);
    assert Join(parts, d) == p + tail && Join(shorter, d) == p[1..] + tail;
    assert p == [p[0]] + p[1..];
    assert p + tail == [p[0]] + (p[1..] + tail);
    SplitAtOther(p[0], Join(shorter, d), d);
    assert [p] + parts[1..] == parts;
  }

  /** A leading separator splits off an empty piece. */
  lemma SplitAtSeparator(x: JsString, d: CodeUnit)
    ensures Split([d] + x, d) == [[]] + Split(x, d)
  {
    assert ([d] + x)[1..] == x;
  }

  /** A leading code unit other than the separator joins the first piece. */
  lemma SplitAtOther(c: CodeUnit, x: JsString, d: CodeUnit)
    requires c != d
    ensures Split([c] + x, d) == [[c] + Split(x, d)[0]] + Split(x, d)[1..]
  {
    assert ([c] + x)[1..] == x;
  }

  /** The join of parts is the first part followed by what the rest adds. */
  lemma JoinHead(parts: seq<JsString>, d: CodeUnit)
    requires |parts| >= 1
    ensures Join(parts, d) == parts[0] + (if |parts| == 1 then [] else [d] + Join(parts[1..], d))
  {
  }

  // ----- bumpVersion -----

  /** "." */
  const Dot: CodeUnit := 0x2E

  /** `Number(part)` for the pieces the model covers: decimal digit strings
      (the empty string among them) whose value is a safe integer. */
  predicate IsNumeral(part: JsString) {
    IsDigits(part) && ParseDigits(part) <= MaxSafeInteger
  }

  /** A manifest version the model covers: its major and minor pieces (the
      first two, where present) are numerals; further pieces are ignored. */
  predicate IsVersion(v: JsString) {
    var parts := Split(v, Dot);
    IsNumeral(parts[0]) && (|parts| >= 2 ==> IsNumeral(parts[1]))
  }

  /** The text of `NaN`. */
  const NaNText: JsString := [0x4E, 0x61, 0x4E]

  /** `` `${major}.${minor + 1}` `` with `major` and `minor` the first two
      numbers of the version: the patch and any further pieces are dropped,
      and a version without a minor piece gets the minor `undefined + 1`,
      which is NaN. */
  function NextVersion(v: JsString): JsString
    requires IsVersion(v)
  {
    var parts := Split(v, Dot);
    var minor := if |parts| >= 2 then ToDecimal(ParseDigits(parts[1]) + 1) else NaNText;
    ToDecimal(ParseDigits(parts[0])) + [Dot] + minor
  }

  /** The major number of a version. */
  function Major(v: JsString): nat
    requires IsVersion(v)
  {
    ParseDigits(Split(v, Dot)[0])
  }

  /** The minor number of a version that has one. */
  function Minor(v: JsString): nat
    requires IsVersion(v) && |Split(v, Dot)| >= 2
  {
    ParseDigits(Split(v, Dot)[1])
  }

  /** A version with a minor piece bumps to exactly two pieces: the major
      number and the minor number plus one, written without leading zeros. */
  lemma NextVersionPieces(v: JsString)
    requires IsVersion(v) && |Split(v, Dot)| >= 2
    ensures Split(NextVersion(v), Dot) == [ToDecimal(Major(v)), ToDecimal(Minor(v) + 1)]
  {
    var a, b := ToDecimal(Major(v)), ToDecimal(Minor(v) + 1);
    assert NextVersion(v) == a + [Dot] + b;
    DigitsHaveNoDot(a);
    DigitsHaveNoDot(b);
    SplitAtDot(a, b);
  }

  /** The bumped version keeps the major number, has the next minor number,
      and is again a version with a minor piece. */
  lemma NextVersionBumpsMinor(v: JsString)
    requires IsVersion(v) && |Split(v, Dot)| >= 2 && Minor(v) < MaxSafeInteger
    ensures var w := NextVersion(v);
      && IsVersion(w) && |Split(w, Dot)| == 2
      && Major(w) == Major(v) && Minor(w) == Minor(v) + 1
  {
    var w := NextVersion(v);
    NextVersionPieces(v);
    var parts := Split(w, Dot);
    ParseToDecimal(Major(v));
    ParseToDecimal(Minor(v) + 1);
    assert ParseDigits(parts[0]) == Major(v);
    assert ParseDigits(parts[1]) == Minor(v) + 1;
  }

  /** Two pieces without "." joined by one split back into those two. */
  lemma SplitAtDot(a: JsString, b: JsString)
    requires Dot !in a && Dot !in b
    ensures Split(a + [Dot] + b, Dot) == [a, b]
  {
    assert a + [Dot] + b == Join([a, b], Dot);
    SplitJoin([a, b], Dot);
  }

  /** A version without a minor piece bumps to "<major>.NaN", which is no
      longer a version the next bump can read. */
  lemma NextVersionWithoutMinor(v: JsString)
    requires IsVersion(v) && |Split(v, Dot)| == 1
    ensures var w := NextVersion(v);
      && w == ToDecimal(Major(v)) + [Dot] + NaNText
      && Split(w, Dot) == [ToDecimal(Major(v)), NaNText]
      && !IsVersion(w)
  {
    assert Dot !in NaNText;
    DigitsHaveNoDot(ToDecimal(Major(v)));
    SplitAtDot(ToDecimal(Major(v)), NaNText);
    assert !IsDigit(NaNText[0]);
  }

  /** Two builds in a row raise the minor number by two. */
  lemma BumpTwice(v: JsString)
    requires IsVersion(v) && |Split(v, Dot)| >= 2 && Minor(v) + 1 < MaxSafeInteger
    ensures IsVersion(NextVersion(v))
    ensures var w := NextVersion(NextVersion(v));
      Split(w, Dot) == [ToDecimal(Major(v)), ToDecimal(Minor(v) + 2)]
  {
    NextVersionBumpsMinor(v);
    NextVersionPieces(NextVersion(v));
  }

  /** The manifest after `bumpVersion`: only `version` changes. */
  function BumpedManifest(m: map<string, Json>): map<string, Json>
    requires "version" in m && m["version"].JStr? && IsVersion(m["version"].s)
  {
    m["version" := JStr(NextVersion(m["version"].s))]
  }

  /** Whatever the version, the bump keeps the manifest's keys and every
      entry but `version`, and `version` becomes the bumped text. */
  lemma BumpKeepsOtherEntries(m: map<string, Json>)
    requires "version" in m && m["version"].JStr? && IsVersion(m["version"].s)
    ensures var f := BumpedManifest(m);
      && f.Keys == m.Keys
      && (forall key | key in m && key != "version" :: f[key] == m[key])
      && f["version"] == JStr(NextVersion(m["version"].s))
  {
  }

  /** The bump keeps the manifest's keys and every entry but `version`, and
      the new version has the same major number and the next minor number. */
  lemma BumpChangesOnlyVersion(m: map<string, Json>)
    requires "version" in m && m["version"].JStr? && IsVersion(m["version"].s)
    requires |Split(m["version"].s, Dot)| >= 2 && Minor(m["version"].s) < MaxSafeInteger
    ensures var f := BumpedManifest(m); var v := m["version"].s;
      && f.Keys == m.Keys
      && (forall key | key in m && key != "version" :: f[key] == m[key])
      && f["version"].JStr? && IsVersion(f["version"].s) && |Split(f["version"].s, Dot)| == 2
      && Major(f["version"].s) == Major(v) && Minor(f["version"].s) == Minor(v) + 1
  {
    NextVersionBumpsMinor(m["version"].s);
  }

  /** A digit string holds no ".". */
  lemma DigitsHaveNoDot(s: JsString)
    requires IsDigits(s)
    ensures Dot !in s
  {
  }

  // ----- the icon-path rewrite -----

  /** The parsed manifest's values. A JSON number is kept as an integer,
      which is all the truthiness test needs. */
  datatype Json =
    | JNull
    | JBool(b: bool)
    | JNum(n: int)
    | JStr(s: JsString)
    | JArr(items: seq<Json>)
    | JObj(fields: map<string, Json>)

  /** JavaScript truthiness of a parsed JSON value. */
  predicate Truthy(j: Json) {
    match j
    case JNull => false
    case JBool(b) => b
    case JNum(n) => n != 0
    case JStr(s) => s != []
    case JArr(_) => true
    case JObj(_) => true
  }

  /** "public/" */
  const PublicPrefix: JsString := [0x70, 0x75, 0x62, 0x6C, 0x69, 0x63, 0x2F]

  /** `p.replace(/^public\//, "")`: one leading "public/" is removed. */
  function StripPublic(p: JsString): JsString {
    if PublicPrefix <= p then p[|PublicPrefix|..] else p
  }

  /** The result is `p` without its leading "public/" when it has one and
      `p` itself otherwise; a second leading "public/" stays. */
  lemma StripPublicOnce(p: JsString, rest: JsString)
    ensures PublicPrefix <= p ==> PublicPrefix + StripPublic(p) == p
    ensures !(PublicPrefix <= p) ==> StripPublic(p) == p
    ensures StripPublic(PublicPrefix + rest) == rest
    ensures StripPublic(PublicPrefix + PublicPrefix + rest) == PublicPrefix + rest
  {
    assert (PublicPrefix + PublicPrefix + rest)[..|PublicPrefix|] == PublicPrefix;
    assert (PublicPrefix + PublicPrefix + rest)[|PublicPrefix|..] == PublicPrefix + rest;
  }

  /** Whether the manifest has an `icons` entry the rewrite runs over. */
  predicate HasIcons(m: map<string, Json>) {
    "icons" in m && Truthy(m["icons"])
  }

  /** The rewrite is defined for the manifests the model covers: no truthy
      `icons`, or an object of icon paths. */
  predicate IconsRewritable(m: map<string, Json>) {
    HasIcons(m) ==>
      m["icons"].JObj? && forall size | size in m["icons"].fields :: m["icons"].fields[size].JStr?
  }

  /** The manifest after the rewrite: every icon path loses one leading
      "public/"; everything else stays. */
  function FixedManifest(m: map<string, Json>): map<string, Json>
    requires IconsRewritable(m)
  {
    if HasIcons(m) then
      var icons := m["icons"].fields;
      m["icons" := JObj(map size | size in icons :: JStr(StripPublic(icons[size].s)))]
    else m
  }

  /** The rewrite keeps the manifest's keys and every entry but `icons`;
      `icons` keeps its sizes, and each path loses exactly one leading
      "public/". Without a truthy `icons` the manifest is unchanged. */
  lemma FixedManifestRewritesOnlyIcons(m: map<string, Json>)
    requires IconsRewritable(m)
    ensures var f := FixedManifest(m);
      && f.Keys == m.Keys
      && (forall key | key in m && key != "icons" :: f[key] == m[key])
      && (!HasIcons(m) ==> f == m)
      && (HasIcons(m) ==>
            && f["icons"].JObj? && f["icons"].fields.Keys == m["icons"].fields.Keys
            && forall size | size in m["icons"].fields ::
                 var p := m["icons"].fields[size].s;
                 && f["icons"].fields[size].JStr?
                 && (if PublicPrefix <= p then PublicPrefix + f["icons"].fields[size].s == p
                     else f["icons"].fields[size].s == p))
  {
    if HasIcons(m) {
      var icons := m["icons"].fields;
      forall size | size in icons
        ensures PublicPrefix <= icons[size].s ==> PublicPrefix + StripPublic(icons[size].s) == icons[size].s
      {
        StripPublicOnce(icons[size].s, []);
      }
    }
  }

  /** After the rewrite no icon path starts with "public/" unless it started
      with it twice; a second build run therefore changes nothing. */
  lemma FixedManifestIdempotent(m: map<string, Json>)
    requires IconsRewritable(m)
    requires HasIcons(m) ==> forall size | size in m["icons"].fields ::
      !(PublicPrefix + PublicPrefix <= m["icons"].fields[size].s)
    ensures IconsRewritable(FixedManifest(m))
    ensures FixedManifest(FixedManifest(m)) == FixedManifest(m)
  {
    if HasIcons(m) {
      var icons := m["icons"].fields;
      var f := FixedManifest(m);
      var fixedIcons := f["icons"].fields;
      forall size | size in fixedIcons
        ensures StripPublic(fixedIcons[size].s) == fixedIcons[size].s
      {
        var p := icons[size].s;
        if PublicPrefix <= p {
          var q := p[|PublicPrefix|..];
          assert p == PublicPrefix + q;
        }
      }
      assert f["icons"].fields == fixedIcons;
      assert FixedManifest(f)["icons"] == f["icons"];
    }
  }

  /** The parsed `manifest.json`, edited in place by the build. */
  class Manifest {
    var entries: map<string, Json>

    constructor (parsed: map<string, Json>)
      ensures entries == parsed
    {
      entries := parsed;
    }

    /** `bumpVersion` on the parsed manifest: `version` becomes the bumped
        version, which is returned; no other entry changes. */
    method BumpVersion() returns (newVersion: JsString)
      requires "version" in entries && entries["version"].JStr? && IsVersion(entries["version"].s)
      modifies this
      ensures newVersion == NextVersion(old(entries)["version"].s)
      ensures entries == BumpedManifest(old(entries))
    {
      var versionParts := Split(entries["version"].s, Dot);
      var major := ParseDigits(versionParts[0]);
      var minorText := if |versionParts| >= 2 then ToDecimal(ParseDigits(versionParts[1]) + 1) else NaNText;
      newVersion := ToDecimal(major) + [Dot] + minorText;
      entries := entries["version" := JStr(newVersion)];
    }

    /** The icon-path loop of the build: each size's path loses one leading
        "public/". */
    method FixIconPaths()
      requires IconsRewritable(entries)
      modifies this
      ensures entries == FixedManifest(old(entries))
    {
      if "icons" in entries && Truthy(entries["icons"]) {
        var icons := entries["icons"].fields;
        var fixed := icons;
        var pending := icons.Keys;
        while pending != {}
          invariant pending <= icons.Keys && fixed.Keys == icons.Keys
          invariant forall size | size in icons ::
            fixed[size] == if size in pending then icons[size] else JStr(StripPublic(icons[size].s))
          decreases |pending|
        {
          var size :| size in pending;
          fixed := fixed[size := JStr(StripPublic(fixed[size].s))];
          pending := pending - {size};
        }
        assert fixed == map size | size in icons :: JStr(StripPublic(icons[size].s));
        entries := entries["icons" := JObj(fixed)];
      }
    }
  }
}
