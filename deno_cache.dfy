/** A module file in the dependency cache, laid out as `<depsDir>/<scheme>/<host>/<hash>`,
    and the resolution of the import specifiers found in it to other cached files. */
module DenoCache {
  import opened Paths

  datatype Option<T> = None | Some(value: T)

  /** A loaded origin manifest: its two lookup directions, hash to URL path and query,
      and URL path and query to hash. Nothing ties the two together unless a lemma
      says `Consistent`. */
  datatype Manifest = Manifest(urlPathOf: map<string, string>, hashOf: map<string, string>)

  /** The parts of a parsed URL the resolver reads; `protocol` keeps its trailing `:`,
      `hostname` excludes any port, `search` is `""` or starts with `?`. */
  datatype Url = Url(protocol: string, hostname: string, pathname: string, search: string)

  /** The collaborators: the deps directory, the process's working directory (read by
      `path.posix.resolve`), the manifest loader as a map from a manifest file path to what
      loads from it (absent: the file is missing or does not parse), and the URL parser as a
      map from a string to its parse (absent: the parser throws). */
  datatype Env = Env(depsDir: string, cwd: string, manifests: map<string, Manifest>, urls: map<string, Url>)

  /** One cached module file; immutable once built. */
  datatype CacheModule = CacheModule(filepath: string, url: string, manifest: Manifest)

  /** The outcome of `resolveModule`: a module, nothing, or an exception escaping it. */
  datatype Resolution = Resolved(target: CacheModule) | Unresolved | Raised

  const MANIFEST_NAME: string := "manifest.json"

  /** A lookup that JavaScript treats as found: the key is there and its value is not `""`. */
  predicate Present(m: map<string, string>, key: string)
  {
    key in m && m[key] != ""
  }

  /** Both lookup directions of a manifest are inverse to each other. */
  predicate Consistent(m: Manifest)
  {
    && (forall h :: h in m.urlPathOf ==> m.urlPathOf[h] in m.hashOf && m.hashOf[m.urlPathOf[h]] == h)
    && (forall k :: k in m.hashOf ==> m.hashOf[k] in m.urlPathOf && m.urlPathOf[m.hashOf[k]] == k)
  }

  /** The manifest file of an origin directory: `manifest.json` one segment below it. */
  function ManifestPath(originDir: string): (r: string)
    ensures forall segs :: |segs| >= 1 && AllPlain(segs) && originDir == AbsPath(segs) ==> r == AbsPath(segs + [MANIFEST_NAME])
  {
    forall segs | |segs| >= 1 && AllPlain(segs) && originDir == AbsPath(segs)
      ensures PathJoin([originDir, MANIFEST_NAME]) == AbsPath(segs + [MANIFEST_NAME])
    {
      assert Plain(MANIFEST_NAME);
      assert [originDir, MANIFEST_NAME] == [AbsPath(segs)] + [MANIFEST_NAME];
      JoinUnder(segs, [MANIFEST_NAME]);
    }
    PathJoin([originDir, MANIFEST_NAME])
  }

  /** `s` with every `from` replaced by `to`. */
  function ReplaceAll(s: string, from: char, to: char): (r: string)
    ensures |r| == |s|
    ensures forall i :: 0 <= i < |s| ==> r[i] == (if s[i] == from then to else s[i])
    decreases |s|
  {
    if |s| == 0 then ""
    else [if s[0] == from then to else s[0]] + ReplaceAll(s[1..], from, to)
  }

  /** The on-disk scheme segment followed by a separator becomes the scheme and `://`:
      `:/` is inserted before that separator. `https/` is tried before `http/`, and any other
      string is left alone. */
  function FixScheme(s: string): (r: string)
    ensures "https/" <= s ==> r == s[..5] + ":/" + s[5..]
    ensures !("https/" <= s) && "http/" <= s ==> r == s[..4] + ":/" + s[4..]
    ensures !("https/" <= s) && !("http/" <= s) ==> r == s
  {
    if "https/" <= s then "https://" + s[6..]
    else if "http/" <= s then "http://" + s[5..]
    else s
  }

  /** The origin an origin directory stands for: `depsDir + "/"` removed when it is a prefix,
      separators turned into `/`, and the scheme fixed up. With `/` as the separator the
      replacement changes nothing, and an absolute directory outside `depsDir/` stays as it is. */
  function Origin(depsDir: string, originDir: string): (r: string)
    ensures depsDir + [SEP] <= originDir ==> r == FixScheme(originDir[|depsDir| + 1..])
    ensures !(depsDir + [SEP] <= originDir) && originDir != "" && originDir[0] == SEP ==> r == originDir
  {
    var prefix := depsDir + [SEP];
    var stripped := if prefix <= originDir then originDir[|prefix|..] else originDir;
    ReplaceSame(stripped, SEP);
    FixScheme(ReplaceAll(stripped, SEP, '/'))
  }

  /** `CacheModule.create(filepath)`. */
  function Create(env: Env, filepath: string): (r: Option<CacheModule>)
    ensures !(env.depsDir <= filepath) ==> r == None
    ensures r.Some? <==>
      && env.depsDir <= filepath
      && ManifestPath(Dirname(filepath)) in env.manifests
      && Present(env.manifests[ManifestPath(Dirname(filepath))].urlPathOf, Basename(filepath))
    ensures r.Some? ==>
      && r.value.filepath == filepath
      && r.value.manifest == env.manifests[ManifestPath(Dirname(filepath))]
      && r.value.url == Origin(env.depsDir, Dirname(filepath)) + r.value.manifest.urlPathOf[Basename(filepath)]
  {
    if !(env.depsDir <= filepath) then None
    else
      var hash := Basename(filepath);
      var originDir := Dirname(filepath);
      var manifestPath := ManifestPath(originDir);
      var origin := Origin(env.depsDir, originDir);
      if manifestPath !in env.manifests then None
      else
        var manifest := env.manifests[manifestPath];
        if !Present(manifest.urlPathOf, hash) then None
        else Some(CacheModule(filepath, origin + manifest.urlPathOf[hash], manifest))
  }

  /** A specifier naming a path in this module's own origin, such as `/npm:tough-cookie@3?dew`. */
  function IsCacheAbsolute(spec: string): (b: bool)
    ensures b <==> "/" <= spec
  {
    |spec| > 0 && spec[0] == '/'
  }

  /** A relative specifier such as `./sub/mod.ts`. */
  function IsRelative(spec: string): (b: bool)
    ensures b <==> "." <= spec
  {
    |spec| > 0 && spec[0] == '.'
  }

  /** One of the alternatives `alts` starts at position `i` of `s`. */
  predicate MatchesAt(s: string, i: nat, alts: seq<string>)
    requires i <= |s|
  {
    exists k :: 0 <= k < |alts| && alts[k] <= s[i..]
  }

  /** An unanchored regular-expression test for a choice of literal alternatives: true when one
      of them occurs anywhere in `s`. */
  function Occurs(s: string, alts: seq<string>): (b: bool)
    ensures b <==> exists i :: 0 <= i <= |s| && MatchesAt(s, i, alts)
    decreases |s|
  {
    if MatchesAt(s, 0, alts) then true
    else if |s| == 0 then false
    else
      var rest := Occurs(s[1..], alts);
      assert forall i :: 1 <= i <= |s| ==> s[i..] == s[1..][i - 1..];
      assert rest <==> exists i :: 0 <= i <= |s| && MatchesAt(s, i, alts) by {
        if rest {
          var j :| 0 <= j <= |s[1..]| && MatchesAt(s[1..], j, alts);
          assert MatchesAt(s, j + 1, alts);
        }
        if exists i :: 0 <= i <= |s| && MatchesAt(s, i, alts) {
          var j :| 0 <= j <= |s| && MatchesAt(s, j, alts);
          assert j >= 1;
          assert MatchesAt(s[1..], j - 1, alts);
        }
      }
      rest
  }

  /** The strings `/http?s:\/\//` matches: its `?` makes the `p` optional, so they are
      `https://` and `htts://`, and never plain `http://`. */
  const URL_PATTERN: seq<string> := ["https://", "htts://"]

  /** The test `/http?s:\/\//.test(s)` for a full URL specifier: unanchored, so the pattern may
      occur anywhere in `s`. */
  function HasUrlMarker(s: string): (b: bool)
    ensures b <==> exists i :: 0 <= i <= |s| && ("https://" <= s[i..] || "htts://" <= s[i..])
  {
    var b := Occurs(s, URL_PATTERN);
    assert forall i :: 0 <= i <= |s| ==> (MatchesAt(s, i, URL_PATTERN) <==> ("https://" <= s[i..] || "htts://" <= s[i..])) by {
      forall i | 0 <= i <= |s|
        ensures MatchesAt(s, i, URL_PATTERN) <==> ("https://" <= s[i..] || "htts://" <= s[i..])
      {
        assert URL_PATTERN[0] == "https://" && URL_PATTERN[1] == "htts://";
      }
    }
    b
  }

  /** `protocol.replace(/:$/, "")`: one trailing colon removed. */
  function StripColon(protocol: string): (r: string)
    ensures r + ":" == protocol <==> |protocol| > 0 && protocol[|protocol| - 1] == ':'
    ensures r + ":" != protocol ==> r == protocol
  {
    if |protocol| > 0 && protocol[|protocol| - 1] == ':' then protocol[..|protocol| - 1] else protocol
  }

  /** The lookup key of a relative specifier: resolved against the directory of the module's
      URL path. */
  function RelativeKey(cwd: string, urlPath: string, spec: string): (r: string)
    ensures r != ""
    ensures cwd != "" && cwd[0] == SEP ==> r[0] == SEP
  {
    var key := Resolve(cwd, [Dirname(urlPath), spec]);
    assert cwd != "" && cwd[0] == SEP ==> key[0] == SEP by {
      if cwd != "" && cwd[0] == SEP {
        ResolveIsAbsolute(cwd, [Dirname(urlPath), spec]);
      }
    }
    key
  }

  /** The cache directory of a URL's origin: `depsDir/<scheme>/<hostname>`; the port is not part of it. */
  function UrlOriginDir(depsDir: string, u: Url): (r: string)
    ensures r != ""
    ensures forall deps :: |deps| >= 1 && AllPlain(deps) && depsDir == AbsPath(deps)
                           && Plain(StripColon(u.protocol)) && Plain(u.hostname)
                           ==> r == AbsPath(deps + [StripColon(u.protocol), u.hostname])
  {
    forall deps | |deps| >= 1 && AllPlain(deps) && depsDir == AbsPath(deps)
                  && Plain(StripColon(u.protocol)) && Plain(u.hostname)
      ensures PathJoin([depsDir, StripColon(u.protocol), u.hostname])
              == AbsPath(deps + [StripColon(u.protocol), u.hostname])
    {
      OriginDirJoin(deps, StripColon(u.protocol), u.hostname);
    }
    PathJoin([depsDir, StripColon(u.protocol), u.hostname])
  }

  function Found(o: Option<CacheModule>): Resolution
  {
    if o.Some? then Resolved(o.value) else Unresolved
  }

  /** `this.resolveModule(spec)` on the module `self`. */
  function ResolveModule(env: Env, self: CacheModule, spec: string): (r: Resolution)
    ensures r.Raised? <==> IsRelative(spec) && self.url !in env.urls
    ensures !IsCacheAbsolute(spec) && !IsRelative(spec) && !HasUrlMarker(spec) ==> r == Unresolved
    ensures r.Resolved? ==> Create(env, r.target.filepath) == Some(r.target)
    ensures IsCacheAbsolute(spec) ==>
      (r.Resolved? <==>
         && Present(self.manifest.hashOf, spec)
         && Create(env, PathJoin([Dirname(self.filepath), self.manifest.hashOf[spec]])).Some?)
    ensures IsRelative(spec) && self.url in env.urls ==>
      (r.Resolved? <==>
         && var key := RelativeKey(env.cwd, env.urls[self.url].pathname, spec);
         && Present(self.manifest.hashOf, key)
         && Create(env, PathJoin([Dirname(self.filepath), self.manifest.hashOf[key]])).Some?)
    ensures !IsCacheAbsolute(spec) && !IsRelative(spec) && HasUrlMarker(spec) ==>
      (r.Resolved? <==>
         && spec in env.urls
         && var dir := UrlOriginDir(env.depsDir, env.urls[spec]);
         && var key := env.urls[spec].pathname + env.urls[spec].search;
         && ManifestPath(dir) in env.manifests
         && Present(env.manifests[ManifestPath(dir)].hashOf, key)
         && Create(env, PathJoin([dir, env.manifests[ManifestPath(dir)].hashOf[key]])).Some?)
    ensures r.Resolved? && IsCacheAbsolute(spec) ==>
      && Present(self.manifest.hashOf, spec)
      && r.target.filepath == PathJoin([Dirname(self.filepath), self.manifest.hashOf[spec]])
    ensures r.Resolved? && IsRelative(spec) ==>
      && self.url in env.urls
      && var key := RelativeKey(env.cwd, env.urls[self.url].pathname, spec);
      && Present(self.manifest.hashOf, key)
      && r.target.filepath == PathJoin([Dirname(self.filepath), self.manifest.hashOf[key]])
    ensures r.Resolved? && !IsCacheAbsolute(spec) && !IsRelative(spec) ==>
      && HasUrlMarker(spec) && spec in env.urls
      && var dir := UrlOriginDir(env.depsDir, env.urls[spec]);
      && var key := env.urls[spec].pathname + env.urls[spec].search;
      && ManifestPath(dir) in env.manifests
      && Present(env.manifests[ManifestPath(dir)].hashOf, key)
      && r.target.filepath == PathJoin([dir, env.manifests[ManifestPath(dir)].hashOf[key]])
  {
    if IsCacheAbsolute(spec) then
      if !Present(self.manifest.hashOf, spec) then Unresolved
      else Found(Create(env, PathJoin([Dirname(self.filepath), self.manifest.hashOf[spec]])))
    else if IsRelative(spec) then
      if self.url !in env.urls then Raised
      else
        var key := RelativeKey(env.cwd, env.urls[self.url].pathname, spec);
        if !Present(self.manifest.hashOf, key) then Unresolved
        else Found(Create(env, PathJoin([Dirname(self.filepath), self.manifest.hashOf[key]])))
    else if HasUrlMarker(spec) then
      if spec !in env.urls then Unresolved
      else
        var u := env.urls[spec];
        var dir := UrlOriginDir(env.depsDir, u);
        if ManifestPath(dir) !in env.manifests then Unresolved
        else
          var manifest := env.manifests[ManifestPath(dir)];
          var key := u.pathname + u.search;
          if !Present(manifest.hashOf, key) then Unresolved
          else Found(Create(env, PathJoin([dir, manifest.hashOf[key]])))
    else Unresolved
  }

  // ---------------------------------------------------------------------------
  // Origin derivation and create

  /** A scheme segment with no separator is the whole of any segment it is followed by. */
  lemma SegmentPrefix(w: string, scheme: string, rest: string)
    requires SEP !in w && SEP !in scheme
    requires w + [SEP] <= scheme + [SEP] + rest
    ensures w == scheme
  {
    var s := scheme + [SEP] + rest;
    assert s == w + [SEP] + s[|w| + 1..];
    SplitConcat(w, s[|w| + 1..]);
    SplitSegment(w);
    SplitConcat(scheme, rest);
    SplitSegment(scheme);
    assert ([w] + Split(s[|w| + 1..]))[0] == w;
    assert ([scheme] + Split(rest))[0] == scheme;
  }

  lemma ReplaceSame(s: string, c: char)
    ensures ReplaceAll(s, c, c) == s
  {
  }

  /** `<depsDir>/<scheme>/<host>` stands for `<scheme>://<host>` when the scheme is `http` or
      `https`, and for `<scheme>/<host>` otherwise. */
  lemma OriginOfLayout(depsDir: string, scheme: string, host: string)
    requires SEP !in scheme
    ensures Origin(depsDir, depsDir + [SEP] + scheme + [SEP] + host)
         == (if scheme == "https" || scheme == "http" then scheme + "://" + host else scheme + [SEP] + host)
  {
    var dir := depsDir + [SEP] + scheme + [SEP] + host;
    assert depsDir + [SEP] <= dir;
    assert dir[|depsDir| + 1..] == scheme + [SEP] + host;
    FixSchemeLayout(scheme, host);
  }

  /** The scheme fix-up on `<scheme>/<host>`. */
  lemma FixSchemeLayout(scheme: string, host: string)
    requires SEP !in scheme
    ensures FixScheme(scheme + [SEP] + host)
         == (if scheme == "https" || scheme == "http" then scheme + "://" + host else scheme + [SEP] + host)
  {
    var s := scheme + [SEP] + host;
    if "https/" <= s {
      SegmentPrefix("https", scheme, host);
      assert s[6..] == host;
    } else if "http/" <= s {
      SegmentPrefix("http", scheme, host);
      assert s[5..] == host;
    } else {
      assert scheme != "https" && scheme != "http";
    }
  }

  /** `create` on a file `hash` directly inside a directory under the deps dir: it yields the
      module with that directory's manifest exactly when the manifest loads and names `hash`. */
  lemma CreateUnder(env: Env, dir: string, hash: string)
    requires |dir| >= 1 && dir != [SEP] && env.depsDir <= dir
    requires hash != "" && SEP !in hash
    ensures Create(env, dir + [SEP] + hash)
         == if ManifestPath(dir) in env.manifests && Present(env.manifests[ManifestPath(dir)].urlPathOf, hash)
            then Some(CacheModule(dir + [SEP] + hash,
                                  Origin(env.depsDir, dir) + env.manifests[ManifestPath(dir)].urlPathOf[hash],
                                  env.manifests[ManifestPath(dir)]))
            else None
  {
    assert env.depsDir <= dir + [SEP] + hash;
    DirnameChild(dir, hash);
    BasenameChild(dir, hash);
  }

  /** `create` on a file laid out as `<depsDir>/<scheme>/<host>/<hash>`: the URL is the origin
      the layout stands for followed by the manifest's path and query. */
  lemma CreateLayout(env: Env, scheme: string, host: string, hash: string)
    requires SEP !in scheme
    requires hash != "" && SEP !in hash
    ensures var dir := env.depsDir + [SEP] + scheme + [SEP] + host;
              Create(env, dir + [SEP] + hash)
              == if ManifestPath(dir) in env.manifests && Present(env.manifests[ManifestPath(dir)].urlPathOf, hash)
                 then Some(CacheModule(dir + [SEP] + hash,
                                       (if scheme == "https" || scheme == "http" then scheme + "://" + host else scheme + [SEP] + host)
                                       + env.manifests[ManifestPath(dir)].urlPathOf[hash],
                                       env.manifests[ManifestPath(dir)]))
                 else None
  {
    var dir := env.depsDir + [SEP] + scheme + [SEP] + host;
    CreateUnder(env, dir, hash);
    OriginOfLayout(env.depsDir, scheme, host);
  }

  /** With a consistent manifest, the path and query of a created module's URL maps back to
      the file's hash. */
  lemma CreateRoundTrip(env: Env, filepath: string)
    requires Create(env, filepath).Some?
    requires Consistent(Create(env, filepath).value.manifest)
    ensures var m := Create(env, filepath).value;
            exists pathAndQuery :: pathAndQuery in m.manifest.hashOf
              && m.url == Origin(env.depsDir, Dirname(filepath)) + pathAndQuery
              && m.manifest.hashOf[pathAndQuery] == Basename(filepath)
  {
    var m := Create(env, filepath).value;
    var pathAndQuery := m.manifest.urlPathOf[Basename(filepath)];
    assert pathAndQuery in m.manifest.hashOf;
  }

  /** The deps-dir guard is a string prefix test, so a sibling directory such as `/deps2` of a
      deps dir `/deps` passes it; `/deps/` is then not stripped and the origin keeps the whole
      directory path. */
  lemma RawPrefixQuirk(env: Env, tail: string, hash: string)
    requires env.depsDir != "" && env.depsDir[0] == SEP
    requires tail != "" && tail[0] != SEP
    requires hash != "" && SEP !in hash
    ensures Origin(env.depsDir, env.depsDir + tail) == env.depsDir + tail
    ensures var dir := env.depsDir + tail;
              Create(env, dir + [SEP] + hash)
              == if ManifestPath(dir) in env.manifests && Present(env.manifests[ManifestPath(dir)].urlPathOf, hash)
                 then Some(CacheModule(dir + [SEP] + hash, dir + env.manifests[ManifestPath(dir)].urlPathOf[hash],
                                       env.manifests[ManifestPath(dir)]))
                 else None
  {
    var dir := env.depsDir + tail;
    assert !(env.depsDir + [SEP] <= dir) by {
      assert dir[|env.depsDir|] == tail[0];
    }
    ReplaceSame(dir, SEP);
    assert !("https/" <= dir) && !("http/" <= dir) by {
      assert dir[0] == SEP;
    }
    CreateUnder(env, dir, hash);
  }

  // ---------------------------------------------------------------------------
  // Specifier classification

  lemma MatchHasS(s: string, i: nat)
    requires i <= |s|
    ensures "https://" <= s[i..] || "htts://" <= s[i..] ==> 's' in s
  {
    if "https://" <= s[i..] {
      assert s[i + 4] == s[i..][4];
    } else if "htts://" <= s[i..] {
      assert s[i + 3] == s[i..][3];
    }
  }

  /** The URL test never passes on a string without the letter `s`. */
  lemma NoMarkerWithoutS(s: string)
    requires 's' !in s
    ensures !HasUrlMarker(s)
  {
    forall i | 0 <= i <= |s|
      ensures "https://" <= s[i..] || "htts://" <= s[i..] ==> 's' in s
    {
      MatchHasS(s, i);
    }
  }

  /** So a plain `http://` specifier without an `s` in it, such as `http://example.com/a`,
      matches no branch and resolves to nothing. */
  lemma PlainHttpUnresolved(env: Env, self: CacheModule, rest: string)
    requires 's' !in rest
    ensures ResolveModule(env, self, "http://" + rest) == Unresolved
  {
    var spec := "http://" + rest;
    assert spec[0] == 'h';
    assert forall i :: 7 <= i < |spec| ==> spec[i] == rest[i - 7];
    assert 's' !in spec;
    NoMarkerWithoutS(spec);
  }

  /** The URL test finds `https://` at any position, */
  lemma MarkerUnanchored(pre: string, rest: string)
    ensures HasUrlMarker(pre + "https://" + rest)
  {
    var s := pre + "https://" + rest;
    assert s[|pre|..] == "https://" + rest;
  }

  /** and it also passes the misspelt scheme `htts`. */
  lemma MarkerMisspelt(rest: string)
    ensures HasUrlMarker("htts://" + rest)
  {
    var s := "htts://" + rest;
    assert s[0..] == s;
  }

  // ---------------------------------------------------------------------------
  // Cache-absolute and relative specifiers

  /** `CreateUnder` for a directory written as plain segments. */
  lemma CreateChild(env: Env, dir: seq<string>, hash: string)
    requires |dir| >= 1 && AllPlain(dir) && Plain(hash)
    requires env.depsDir <= AbsPath(dir)
    ensures Create(env, AbsPath(dir + [hash]))
         == if ManifestPath(AbsPath(dir)) in env.manifests && Present(env.manifests[ManifestPath(AbsPath(dir))].urlPathOf, hash)
            then Some(CacheModule(AbsPath(dir + [hash]),
                                  Origin(env.depsDir, AbsPath(dir)) + env.manifests[ManifestPath(AbsPath(dir))].urlPathOf[hash],
                                  env.manifests[ManifestPath(AbsPath(dir))]))
            else None
  {
    AbsPathSnoc(dir, hash);
    assert AbsPath(dir)[0] == SEP && |AbsPath(dir)| >= 2;
    CreateUnder(env, AbsPath(dir), hash);
  }

  /** A hash named by a module's own manifest is created as a sibling file of that module,
      with the same manifest and origin. */
  lemma SiblingCreate(env: Env, self: CacheModule, dir: seq<string>, own: string, hash: string)
    requires Create(env, self.filepath) == Some(self)
    requires |dir| >= 1 && AllPlain(dir) && Plain(own) && self.filepath == AbsPath(dir + [own])
    requires env.depsDir <= AbsPath(dir)
    requires Plain(hash) && Present(self.manifest.urlPathOf, hash)
    ensures PathJoin([Dirname(self.filepath), hash]) == AbsPath(dir + [hash])
    ensures Create(env, AbsPath(dir + [hash]))
         == Some(CacheModule(AbsPath(dir + [hash]), Origin(env.depsDir, AbsPath(dir)) + self.manifest.urlPathOf[hash], self.manifest))
  {
    DirnameAbsPath(dir, own);
    JoinUnder(dir, [hash]);
    CreateChild(env, dir, hash);
  }

  /** Resolving a cache-absolute specifier in a module built by `create`, with a consistent
      manifest: the result is the sibling file its hash names, and its URL is this module's
      origin followed by the specifier. */
  lemma CacheAbsoluteRoundTrip(env: Env, self: CacheModule, dir: seq<string>, own: string, spec: string)
    requires Create(env, self.filepath) == Some(self)
    requires |dir| >= 1 && AllPlain(dir) && Plain(own) && self.filepath == AbsPath(dir + [own])
    requires env.depsDir <= AbsPath(dir)
    requires Consistent(self.manifest)
    requires IsCacheAbsolute(spec) && spec in self.manifest.hashOf && Plain(self.manifest.hashOf[spec])
    ensures ResolveModule(env, self, spec)
         == Resolved(CacheModule(AbsPath(dir + [self.manifest.hashOf[spec]]), Origin(env.depsDir, AbsPath(dir)) + spec, self.manifest))
  {
    var hash := self.manifest.hashOf[spec];
    assert self.manifest.urlPathOf[hash] == spec;
    SiblingCreate(env, self, dir, own, hash);
  }

  /** When the working directory is absolute, the lookup key of a relative specifier starts
      with `/` and has its `.`, `..` and empty segments collapsed: it is an absolute path of
      plain segments. */
  lemma RelativeKeyIsAbsolute(cwd: string, urlPath: string, spec: string)
    requires cwd != "" && cwd[0] == SEP
    ensures var key := RelativeKey(cwd, urlPath, spec); key != "" && key[0] == SEP
    ensures exists segs :: AllPlain(segs) && RelativeKey(cwd, urlPath, spec) == AbsPath(segs)
  {
    ResolveIsAbsolute(cwd, [Dirname(urlPath), spec]);
    ResolveCollapsed(cwd, [Dirname(urlPath), spec]);
  }

  /** A relative specifier whose segments are `.` and then plain `rel`, inside a module at URL
      path `/dir/file`, looks up `/dir/rel`: the directory of the current path is kept. */
  lemma RelativeKeyDot(cwd: string, urlDir: seq<string>, file: string, spec: string, rel: seq<string>)
    requires AllPlain(urlDir) && Plain(file)
    requires IsRelative(spec) && Split(spec) == ["."] + rel && AllPlain(rel)
    ensures RelativeKey(cwd, AbsPath(urlDir + [file]), spec) == AbsPath(urlDir + rel)
  {
    DirnameAbsPath(urlDir, file);
    NormFromAbsPath([], urlDir, false);
    ResolveDot(cwd, AbsPath(urlDir), urlDir, spec, rel);
  }

  /** A relative specifier whose segments are `..` and then plain `rel`, inside a module at URL
      path `/dir/up/file`, looks up `/dir/rel`. */
  lemma RelativeKeyDotDot(cwd: string, urlDir: seq<string>, up: string, file: string, spec: string, rel: seq<string>)
    requires AllPlain(urlDir) && Plain(up) && Plain(file)
    requires IsRelative(spec) && Split(spec) == [".."] + rel && AllPlain(rel)
    ensures RelativeKey(cwd, AbsPath(urlDir + [up, file]), spec) == AbsPath(urlDir + rel)
  {
    assert urlDir + [up, file] == (urlDir + [up]) + [file];
    assert AllPlain(urlDir + [up]);
    DirnameAbsPath(urlDir + [up], file);
    NormFromAbsPath([], urlDir + [up], false);
    ResolveDotDot(cwd, AbsPath(urlDir + [up]), urlDir, up, spec, rel);
  }

  lemma ExampleSpecifiers()
    ensures Split("./c/d.ts") == [".", "c", "d.ts"]
    ensures Split("../c/d.ts") == ["..", "c", "d.ts"]
  {
    assert Glue([".", "c", "d.ts"]) == "./c/d.ts";
    SplitGlue([".", "c", "d.ts"]);
    assert Glue(["..", "c", "d.ts"]) == "../c/d.ts";
    SplitGlue(["..", "c", "d.ts"]);
  }

  lemma ExampleKeys(cwd: string, dot: string, dotDot: string)
    requires IsRelative(dot) && Split(dot) == [".", "c", "d.ts"]
    requires IsRelative(dotDot) && Split(dotDot) == ["..", "c", "d.ts"]
    ensures RelativeKey(cwd, AbsPath(["a", "b", "mod.ts"]), dot) == AbsPath(["a", "b", "c", "d.ts"])
    ensures RelativeKey(cwd, AbsPath(["a", "b", "mod.ts"]), dotDot) == AbsPath(["a", "c", "d.ts"])
  {
    assert ["a", "b"] + ["mod.ts"] == ["a", "b", "mod.ts"];
    assert ["a", "b"] + ["c", "d.ts"] == ["a", "b", "c", "d.ts"];
    assert [".", "c", "d.ts"] == ["."] + ["c", "d.ts"];
    RelativeKeyDot(cwd, ["a", "b"], "mod.ts", dot, ["c", "d.ts"]);
    assert ["a"] + ["b", "mod.ts"] == ["a", "b", "mod.ts"];
    assert ["a"] + ["c", "d.ts"] == ["a", "c", "d.ts"];
    assert ["..", "c", "d.ts"] == [".."] + ["c", "d.ts"];
    RelativeKeyDotDot(cwd, ["a"], "b", "mod.ts", dotDot, ["c", "d.ts"]);
  }

  /** A module at `https://example.com/a/b/mod.ts` importing `./c/d.ts` looks up `/a/b/c/d.ts`,
      and importing `../c/d.ts` looks up `/a/c/d.ts`. */
  lemma RelativeKeyExamples(cwd: string)
    ensures RelativeKey(cwd, AbsPath(["a", "b", "mod.ts"]), "./c/d.ts") == AbsPath(["a", "b", "c", "d.ts"])
    ensures RelativeKey(cwd, AbsPath(["a", "b", "mod.ts"]), "../c/d.ts") == AbsPath(["a", "c", "d.ts"])
  {
    ExampleSpecifiers();
    ExampleKeys(cwd, "./c/d.ts", "../c/d.ts");
  }

  /** Resolving a relative specifier `./rel` in a module built by `create`, with a consistent
      manifest: the result is the sibling file whose URL is this module's origin followed by the
      resolved key. */
  lemma RelativeRoundTrip(env: Env, self: CacheModule, dir: seq<string>, own: string,
                          urlDir: seq<string>, file: string, spec: string, rel: seq<string>)
    requires Create(env, self.filepath) == Some(self)
    requires |dir| >= 1 && AllPlain(dir) && Plain(own) && self.filepath == AbsPath(dir + [own])
    requires env.depsDir <= AbsPath(dir)
    requires self.url in env.urls && env.urls[self.url].pathname == AbsPath(urlDir + [file])
    requires AllPlain(urlDir) && Plain(file)
    requires IsRelative(spec) && Split(spec) == ["."] + rel && AllPlain(rel)
    requires Consistent(self.manifest)
    requires AbsPath(urlDir + rel) in self.manifest.hashOf && Plain(self.manifest.hashOf[AbsPath(urlDir + rel)])
    ensures ResolveModule(env, self, spec)
         == Resolved(CacheModule(AbsPath(dir + [self.manifest.hashOf[AbsPath(urlDir + rel)]]),
                                 Origin(env.depsDir, AbsPath(dir)) + AbsPath(urlDir + rel), self.manifest))
  {
    var key := AbsPath(urlDir + rel);
    RelativeKeyDot(env.cwd, urlDir, file, spec, rel);
    var hash := self.manifest.hashOf[key];
    assert self.manifest.urlPathOf[hash] == key;
    SiblingCreate(env, self, dir, own, hash);
  }

  // ---------------------------------------------------------------------------
  // Full URL specifiers

  /** The directory of origin `<scheme>://<host>` under a deps dir written as plain segments. */
  lemma OriginDirJoin(deps: seq<string>, scheme: string, host: string)
    requires |deps| >= 1 && AllPlain(deps) && Plain(scheme) && Plain(host)
    ensures PathJoin([AbsPath(deps), scheme, host]) == AbsPath(deps + [scheme, host])
  {
    assert [AbsPath(deps), scheme, host] == [AbsPath(deps)] + [scheme, host];
    JoinUnder(deps, [scheme, host]);
  }

  /** The cache directory of an `http`/`https`-like URL under a deps dir of plain segments is
      `<depsDir>/<scheme>/<hostname>`: the protocol loses its colon and no port appears. */
  lemma UrlOriginDirLayout(deps: seq<string>, u: Url, scheme: string)
    requires |deps| >= 1 && AllPlain(deps)
    requires Plain(scheme) && u.protocol == scheme + ":" && Plain(u.hostname)
    ensures UrlOriginDir(AbsPath(deps), u) == AbsPath(deps + [scheme, u.hostname])
  {
    assert StripColon(u.protocol) == scheme;
    OriginDirJoin(deps, scheme, u.hostname);
  }

  lemma OriginDirString(deps: seq<string>, scheme: string, host: string)
    requires |deps| >= 1
    ensures AbsPath(deps + [scheme, host]) == AbsPath(deps) + [SEP] + scheme + [SEP] + host
  {
    GlueConcat(deps, [scheme, host]);
  }

  lemma OriginFileJoin(deps: seq<string>, scheme: string, host: string, hash: string)
    requires |deps| >= 1 && AllPlain(deps) && Plain(scheme) && Plain(host) && Plain(hash)
    ensures PathJoin([AbsPath(deps + [scheme, host]), hash]) == AbsPath(deps + [scheme, host, hash])
  {
    assert AllPlain(deps + [scheme, host]);
    JoinUnder(deps + [scheme, host], [hash]);
    assert (deps + [scheme, host]) + [hash] == deps + [scheme, host, hash];
  }

  /** `create` on the file `hash` of origin `<scheme>://<host>`, for `http` and `https`. */
  lemma CreateInOrigin(env: Env, deps: seq<string>, scheme: string, host: string, hash: string)
    requires |deps| >= 1 && AllPlain(deps) && env.depsDir == AbsPath(deps)
    requires (scheme == "https" || scheme == "http") && Plain(host) && Plain(hash)
    ensures var dir := AbsPath(deps + [scheme, host]);
              Create(env, AbsPath(deps + [scheme, host, hash]))
              == if ManifestPath(dir) in env.manifests && Present(env.manifests[ManifestPath(dir)].urlPathOf, hash)
                 then Some(CacheModule(AbsPath(deps + [scheme, host, hash]),
                                       scheme + "://" + host + env.manifests[ManifestPath(dir)].urlPathOf[hash],
                                       env.manifests[ManifestPath(dir)]))
                 else None
  {
    var segs := deps + [scheme, host];
    assert AllPlain(segs);
    assert segs + [hash] == deps + [scheme, host, hash];
    OriginDirString(deps, scheme, host);
    assert env.depsDir <= AbsPath(segs);
    CreateChild(env, segs, hash);
    OriginOfLayout(env.depsDir, scheme, host);
  }

  /** Resolving an `http`/`https` URL, whatever the current module's origin: the target lies in
      `<depsDir>/<scheme>/<hostname>`, and with a consistent manifest there its URL is the
      scheme, `://`, the hostname and the looked-up path and query. */
  lemma FullUrlRoundTrip(env: Env, self: CacheModule, spec: string, deps: seq<string>, scheme: string, u: Url, m: Manifest)
    requires |deps| >= 1 && AllPlain(deps) && env.depsDir == AbsPath(deps)
    requires !IsCacheAbsolute(spec) && !IsRelative(spec) && HasUrlMarker(spec)
    requires spec in env.urls && env.urls[spec] == u
    requires (scheme == "https" || scheme == "http") && u.protocol == scheme + ":" && Plain(u.hostname)
    requires ManifestPath(AbsPath(deps + [scheme, u.hostname])) in env.manifests
    requires env.manifests[ManifestPath(AbsPath(deps + [scheme, u.hostname]))] == m
    requires Consistent(m) && u.pathname + u.search != ""
    requires u.pathname + u.search in m.hashOf && Plain(m.hashOf[u.pathname + u.search])
    ensures ResolveModule(env, self, spec)
         == Resolved(CacheModule(AbsPath(deps + [scheme, u.hostname, m.hashOf[u.pathname + u.search]]),
                                 scheme + "://" + u.hostname + (u.pathname + u.search), m))
  {
    var host, key := u.hostname, u.pathname + u.search;
    var hash := m.hashOf[key];
    UrlOriginDirLayout(deps, u, scheme);
    OriginDirString(deps, scheme, host);
    OriginFileJoin(deps, scheme, host, hash);
    var dir := UrlOriginDir(env.depsDir, u);
    assert dir == AbsPath(deps + [scheme, host]);
    assert Present(m.hashOf, key);
    assert PathJoin([dir, hash]) == AbsPath(deps + [scheme, host, hash]);
    assert m.urlPathOf[hash] == key;
    CreateInOrigin(env, deps, scheme, host, hash);
  }
}
