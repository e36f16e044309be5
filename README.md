# Deno dependency-cache modules

A model of `CacheModule` from `core/deno_cache.ts`. Deno keeps fetched modules in a
dependency cache laid out as `<depsDir>/<scheme>/<host>/<hash>`. Each origin directory has a
`manifest.json` that maps each content hash to the URL path and query it was fetched from, and
maps those back to the hash.

- `CacheModule.create(filepath)` takes a cached file. It checks that the file lies under the
  deps dir, loads that origin's manifest, and rebuilds the URL the file stands for.
- `resolveModule(spec)` turns an import specifier found in a cached file into another cached
  file. The specifier may be cache-absolute (`/npm:tough-cookie@3?dew`), relative
  (`./sub/mod.ts`) or a full URL (`https://example.com/demo/mod.ts`).

The model is pure, like the source:

- `paths.dfy` (module `Paths`) gives the Node `path.posix` functions the class calls:
  `basename`, `dirname`, `join`, `normalize` and `resolve`. They work on strings and follow
  Node's algorithms, including the `//` case of `dirname`, kept trailing slashes and `..` above
  the root.
- `deno_cache.dfy` (module `DenoCache`) gives the class itself:
  - `Create` and `ResolveModule` are functions over an `Env`. The `Env` holds the deps dir,
    the working directory, the manifest loader (a map from manifest file path to manifest) and
    the URL parser (a map from string to parsed URL).
  - The constructor is the `CacheModule` datatype. Its three fields are set once and never
    change.

Behaviour the model keeps from the code:

- JavaScript truthiness: an empty hash or URL path counts as not found (`Present`).
- The deps-dir guard is a raw string-prefix test. A file under `/deps2` passes the guard for
  deps dir `/deps` (`RawPrefixQuirk`).
- The URL test `/http?s:\/\//` is unanchored. It matches `https://` and `htts://` anywhere in
  the specifier, and it never matches `http://`. So `http://example.com/a` is not resolved
  (`PlainHttpUnresolved`).
- `new URL(this.url)` on line 73 is outside any `try`. An unparsable `this.url` therefore
  throws out of `resolveModule`, and the model gives `Raised` for it. A URL specifier that
  fails to parse (line 94) is caught, and gives `Unresolved`.
- The relative branch resolves the specifier against `posix.dirname` of the current URL path,
  so the last directory segment is kept: `https://example.com/a/b/mod.ts` importing
  `./c/d.ts` looks up `/a/b/c/d.ts` (`RelativeKeyExamples`).

## Model

| member | source | states |
|---|---|---|
| DenoCache.ManifestPath | core/deno_cache.ts:24 | For an origin directory of plain segments, the manifest file is `manifest.json` one segment below it. |
| DenoCache.ReplaceAll | core/deno_cache.ts:28 | Same length as the input; every `from` becomes `to` and every other character is kept. |
| DenoCache.FixScheme | core/deno_cache.ts:29 | A leading `https/` (tried first) or `http/` gets `:/` inserted before its separator; any other string is unchanged. |
| DenoCache.FixSchemeLayout | core/deno_cache.ts:29 | `<scheme>/<host>` becomes `<scheme>://<host>` exactly for `http` and `https`. |
| DenoCache.Origin | core/deno_cache.ts:26-29 | When `depsDir/` is a prefix, the origin is the scheme fix-up of the rest (the separator replacement changes nothing). An absolute directory without that prefix is its own origin. |
| DenoCache.Create | core/deno_cache.ts:15-45 | Nothing unless the deps dir is a string prefix of the path. Otherwise a module exactly when the manifest at `dirname/manifest.json` loads and names the basename with a non-empty URL path. Its filepath is the input, its manifest is the one loaded, and its URL is the origin followed by that path and query. |
| DenoCache.CreateUnder | core/deno_cache.ts:18-44 | For a file `dir/hash` under the deps dir, `create` gives exactly the module built from `dir`'s manifest when that manifest loads and names `hash`, and nothing otherwise. |
| DenoCache.CreateChild | core/deno_cache.ts:18-44 | The same for a directory given as plain path segments. |
| DenoCache.OriginOfLayout | core/deno_cache.ts:25-29 | `<depsDir>/<scheme>/<host>` stands for `<scheme>://<host>` when the scheme is `http` or `https`, and stays `<scheme>/<host>` otherwise. |
| DenoCache.CreateLayout | core/deno_cache.ts:22-44 | For `<depsDir>/<scheme>/<host>/<hash>`, `create` succeeds exactly when that origin's manifest names the hash. The URL is then the fixed-up origin followed by the manifest's path and query. |
| DenoCache.CreateRoundTrip | core/deno_cache.ts:37-43 | With a consistent manifest, a created module's URL is its origin followed by a path and query that the manifest maps back to the file's hash. |
| DenoCache.RawPrefixQuirk | core/deno_cache.ts:18-27 | A sibling `depsDir + tail` of the deps dir passes the prefix guard. The `depsDir/` strip does not apply, so the origin is the whole directory path. |
| DenoCache.IsCacheAbsolute | core/deno_cache.ts:58 | `indexOf("/") === 0`: true exactly when the specifier starts with `/`. |
| DenoCache.IsRelative | core/deno_cache.ts:71 | `indexOf(".") === 0`: true exactly when the specifier starts with `.`. |
| DenoCache.Occurs | core/deno_cache.ts:91 | An unanchored test of literal alternatives is true exactly when one alternative occurs at some position. |
| DenoCache.HasUrlMarker | core/deno_cache.ts:91 | The URL test passes exactly when `https://` or `htts://` occurs somewhere in the specifier. |
| DenoCache.NoMarkerWithoutS | core/deno_cache.ts:91 | A specifier without the letter `s` never passes the URL test. |
| DenoCache.MarkerUnanchored | core/deno_cache.ts:91 | `https://` is found after any prefix. |
| DenoCache.MarkerMisspelt | core/deno_cache.ts:91 | `htts://` passes the test. |
| DenoCache.PlainHttpUnresolved | core/deno_cache.ts:91-120 | `http://` followed by text without an `s` matches no branch, so it resolves to nothing. |
| DenoCache.ResolveModule | core/deno_cache.ts:56-120 | Raises exactly for a relative specifier when the module's own URL does not parse. An unrecognised specifier gives nothing. Every module returned is what `create` gives for its own filepath. In each branch the result is a module exactly when the lookup hits and `create` succeeds on the target path, and that path is then the result's filepath: `join(dirname(filepath), hash)` for the cache-absolute and relative branches, `join(depsDir/<scheme>/<hostname>, hash)` for a URL. |
| DenoCache.SiblingCreate | core/deno_cache.ts:65-68 | A hash named by the module's own manifest is joined as a sibling file of the module. `create` gives it the same manifest and origin, and the URL path the manifest gives for that hash. |
| DenoCache.CacheAbsoluteRoundTrip | core/deno_cache.ts:58-68 | With a consistent manifest, a cache-absolute specifier resolves to the sibling file its hash names. That file's URL is this module's origin followed by the specifier. |
| DenoCache.RelativeKey | core/deno_cache.ts:75-78 | `posix.resolve(posix.dirname(pathname), spec)` is never empty and, under an absolute working directory, starts with `/`; the next four lemmas give its segments. |
| DenoCache.RelativeKeyIsAbsolute | core/deno_cache.ts:75-78 | The lookup key of a relative specifier starts with `/` and is an absolute path of plain segments, so every `.`, `..` and empty segment is collapsed. |
| DenoCache.RelativeKeyDot | core/deno_cache.ts:75-78 | `.` followed by plain segments `rel`, inside URL path `/dir/file`, gives the key `/dir/rel`. |
| DenoCache.RelativeKeyDotDot | core/deno_cache.ts:75-78 | `..` followed by plain segments `rel`, inside `/dir/up/file`, gives the key `/dir/rel`. |
| DenoCache.RelativeKeyExamples | core/deno_cache.ts:75-78 | From `/a/b/mod.ts`, `./c/d.ts` gives the key `/a/b/c/d.ts` and `../c/d.ts` gives `/a/c/d.ts`. |
| DenoCache.RelativeRoundTrip | core/deno_cache.ts:71-88 | With a consistent manifest, a `./rel` specifier resolves to the sibling file whose URL is this module's origin followed by the resolved key. |
| DenoCache.StripColon | core/deno_cache.ts:100 | A trailing `:` is removed exactly when there is one; otherwise the protocol is unchanged. |
| DenoCache.UrlOriginDir | core/deno_cache.ts:98-102 | Never empty. Under a deps dir of plain segments, with a plain scheme and hostname, it is the deps dir extended by `<scheme>/<hostname>`. |
| DenoCache.UrlOriginDirLayout | core/deno_cache.ts:98-102 | Under a deps dir of plain segments, the target origin directory is `<depsDir>/<scheme>/<hostname>`; the protocol loses its colon and no port appears. |
| DenoCache.OriginDirJoin | core/deno_cache.ts:98-102 | Joining the deps dir, scheme and hostname gives the path of those segments. |
| DenoCache.OriginFileJoin | core/deno_cache.ts:118 | Joining that origin directory with a hash gives the path one segment deeper. |
| DenoCache.CreateInOrigin | core/deno_cache.ts:118 | `create` on a hash of origin `<scheme>://<host>` gives the URL `<scheme>://<host>` followed by the manifest's path and query. |
| DenoCache.FullUrlRoundTrip | core/deno_cache.ts:91-118 | With a consistent manifest at `depsDir/<scheme>/<hostname>`, a recognised `http`/`https` URL resolves to that origin's file for `pathname + search`. The result's URL is `<scheme>://<hostname>` followed by `pathname + search`, whatever the current module's origin. |
| Paths.Basename | core/deno_cache.ts:22 | `path.posix.basename`: never contains a separator and is no longer than the path. |
| Paths.Dirname | core/deno_cache.ts:23 | `path.posix.dirname`: `.` or a prefix of the path, and absolute for an absolute path. |
| Paths.Normalize | core/deno_cache.ts:24 | `path.posix.normalize`: never empty, absolute for an absolute path. |
| Paths.PathJoin | core/deno_cache.ts:24 | `path.posix.join`: never empty; a plain absolute directory joined with plain segments is characterized by `JoinUnder`. |
| Paths.Resolve | core/deno_cache.ts:75-78 | `path.posix.resolve` never returns the empty string (an empty result becomes `.`); `ResolveIsAbsolute`, `ResolveCollapsed`, `ResolveDot` and `ResolveDotDot` give the rest. |
| Paths.ResolveCollapsed | core/deno_cache.ts:75-78 | With an absolute working directory, `resolve` gives an absolute path whose segments are all plain. |
| Paths.TrimSlashes | core/deno_cache.ts:22-23 | The end of the path with trailing separators removed, never below the given bound. |
| Paths.LastSlash | core/deno_cache.ts:22-23 | The last separator before a bound, or -1 when there is none. |
| Paths.BasenameChild | core/deno_cache.ts:22 | `basename(a + "/" + last)` is `last`. |
| Paths.DirnameChild | core/deno_cache.ts:23 | `dirname(a + "/" + last)` is `a` for a directory other than `/`. |
| Paths.BasenameAbsPath | core/deno_cache.ts:22 | `basename` of an absolute path of plain segments is its last segment. |
| Paths.DirnameAbsPath | core/deno_cache.ts:23 | `dirname` of an absolute path of plain segments drops its last segment. |
| Paths.NormalizeAbsPath | core/deno_cache.ts:24 | `normalize` leaves an absolute path of plain segments unchanged. |
| Paths.JoinUnder | core/deno_cache.ts:66 | `join` of an absolute directory and plain segments gives the path of all segments. |
| Paths.GatherStopsAtAbsolute | core/deno_cache.ts:75-78 | The right-to-left scan of `resolve` always finds an absolute argument when the first argument, the working directory, is absolute. |
| Paths.ResolveIsAbsolute | core/deno_cache.ts:75-78 | With an absolute working directory, `resolve` gives an absolute path. |
| Paths.ResolveDot | core/deno_cache.ts:75-78 | `resolve(d, "./" + rel)` gives the directory's segments followed by `rel`. |
| Paths.ResolveDotDot | core/deno_cache.ts:75-78 | `resolve(d, "../" + rel)` replaces the last segment of `d` by `rel`. |

## Left out

- Loading and parsing `manifest.json` (`Manifest.create` and its two lookups in `./manifest`): `Manifest` is a pair of maps, and the loader is a map from the manifest file path. The two directions are only assumed inverse where a lemma asks for `Consistent`.
- `getDenoDepsDir` (in `./deno`) reads the environment: the deps dir is the parameter `Env.depsDir`.
- `process.cwd()`, read by `path.posix.resolve`: the parameter `Env.cwd`.
- `str2regexpStr` and the `RegExp` objects of `create` are modelled by their effect: the prefix strip, the separator replacement and the scheme fix-up. Escaping of regular-expression metacharacters in the deps dir is assumed correct.
- The WHATWG `URL` parser is a partial map, `Env.urls`, to protocol, hostname, pathname and search. How these parts relate to the string is not modelled: lower-casing, port removal, percent-encoding, and the fact that a special scheme's pathname starts with `/`.
- Node's `path` module is not part of this source. `Paths` models `path.posix` with `sep` fixed to `/`, so Windows separators are left out and the separator replacement of line 28 is the identity.
- The `DenoCacheModule` interface is a type declaration with no behaviour.
- RelativeRoundTrip: stated for `.` followed by plain segments only. `..` is covered at the level of the lookup key (`RelativeKeyDotDot`), and directories containing `.`, `..` or empty segments are not covered by the round-trip lemmas.
- FullUrlRoundTrip: assumes a deps dir and hostname made of plain path segments.
