/**
 * The Android implementation (PixelSamplerModule.kt): a module object whose bitmap cache is an
 * insertion-ordered map (Kotlin's `mutableMapOf`, a LinkedHashMap) that drops its first key
 * when it holds `maxCacheSize` bitmaps, a scheme dispatch for loading, and the hex rendering
 * of the packed ARGB pixel.
 *
 * The platform (files, the content resolver, the network, BitmapFactory) is an oracle held in a
 * `Host` value; a missing key stands for a null result or a caught exception.
 */
module AndroidSampler {
  import opened Wrappers
  import opened HexColor
  import opened Coordinates
  import opened UriScheme

  datatype Pixels = Pixels(width: nat, height: nat, argb: seq<bv32>)

  /** A decoded Bitmap: at least one pixel, row-major from the top-left, one packed ARGB word per pixel. */
  type Bitmap = p: Pixels | p.width >= 1 && p.height >= 1 && |p.argb| == p.width * p.height
    witness Pixels(1, 1, [0])

  /** What the platform answers; a missing key is a null result or an exception caught by `loadBitmap`. */
  datatype Host = Host(
    existingFiles: set<string>,           // File(uri).exists()
    decodedFiles: map<string, Bitmap>,    // BitmapFactory.decodeFile(path)
    hasReactContext: bool,                // appContext.reactContext != null
    contentStreams: map<string, Bitmap>,  // contentResolver.openInputStream, then decodeStream
    networkStreams: map<string, Bitmap>)  // URL(uri).openConnection(), then decodeStream

  // ---------------------------------------------------------------- loading

  /** `loadBitmap`: dispatch on the scheme, then ask the platform; every failure is `None`. */
  function LoadBitmap(host: Host, uri: string): (bitmap: Option<Bitmap>)
    ensures HasPrefix(uri, ContentScheme) && !host.hasReactContext ==> bitmap == None
  {
    match ClassifyAndroid(uri)
    case DecodeFile(path) => Get(host.decodedFiles, path)
    case ContentProvider(u) => if host.hasReactContext then Get(host.contentStreams, u) else None
    case Network(url) => Get(host.networkStreams, url)
    case BarePath(path) => if path in host.existingFiles then Get(host.decodedFiles, path) else None
  }

  /** A `file://` URI is decoded from the path after the prefix, with no existence check of its own. */
  lemma FileUriDecodesStrippedPath(host: Host, uri: string)
    requires HasPrefix(uri, FileScheme)
    ensures LoadBitmap(host, uri) == Get(host.decodedFiles, uri[|FileScheme|..])
  {
  }

  /** With a React context, a `content://` URI is read through the content resolver. */
  lemma ContentUriReadsResolver(host: Host, uri: string)
    requires HasPrefix(uri, ContentScheme) && host.hasReactContext
    ensures LoadBitmap(host, uri) == Get(host.contentStreams, uri)
  {
  }

  /** A string with none of the four prefixes that names an existing file is decoded from it. */
  lemma ExistingBarePathDecoded(host: Host, uri: string)
    requires ClassifyAndroid(uri).BarePath? && uri in host.existingFiles
    ensures LoadBitmap(host, uri) == Get(host.decodedFiles, uri)
  {
  }

  /** A string with none of the four prefixes loads only if it names an existing file. */
  lemma BarePathMustExist(host: Host, uri: string)
    requires ClassifyAndroid(uri).BarePath? && uri !in host.existingFiles
    ensures LoadBitmap(host, uri) == None
  {
  }

  /** `http://` and `https://` URIs are fetched, never looked up as files. */
  lemma WebUriIsFetched(host: Host, uri: string)
    requires HasPrefix(uri, HttpScheme) || HasPrefix(uri, HttpsScheme)
    ensures LoadBitmap(host, uri) == Get(host.networkStreams, uri)
  {
  }

  // ---------------------------------------------------------------- pixel read

  /** `Color.red`: bits 16-23 of the packed colour; put back in place they are the colour's red byte. */
  function Red(color: bv32): (v: bv8)
    ensures (v as bv32) << 16 == color & 0x00FF_0000
  {
    ((color >> 16) & 0xFF) as bv8
  }

  /** `Color.green`: bits 8-15 of the packed colour; put back in place they are its green byte. */
  function Green(color: bv32): (v: bv8)
    ensures (v as bv32) << 8 == color & 0x0000_FF00
  {
    ((color >> 8) & 0xFF) as bv8
  }

  /** `Color.blue`: bits 0-7 of the packed colour; the colour is the other 24 bits plus this byte. */
  function Blue(color: bv32): (v: bv8)
    ensures color == (color & 0xFFFF_FF00) | v as bv32
  {
    (color & 0xFF) as bv8
  }

  /** `Color.alpha`: bits 24-31 of the packed colour; put back in place they are its alpha byte. */
  function Alpha(color: bv32): (v: bv8)
    ensures (v as bv32) << 24 == color & 0xFF00_0000
  {
    (color >> 24) as bv8
  }

  /** `Color.argb`: packs four 8-bit channels; the partner of the four extractors. */
  function Argb(alpha: bv8, red: bv8, green: bv8, blue: bv8): bv32 {
    ((alpha as bv32) << 24) | ((red as bv32) << 16) | ((green as bv32) << 8) | (blue as bv32)
  }

  /** Extraction reads back exactly the channels that were packed. */
  lemma ChannelsOfArgb(alpha: bv8, red: bv8, green: bv8, blue: bv8)
    ensures var c := Argb(alpha, red, green, blue);
      Alpha(c) == alpha && Red(c) == red && Green(c) == green && Blue(c) == blue
  {
  }

  /** The four channels determine the colour: packing them again gives it back. */
  lemma ArgbOfChannels(color: bv32)
    ensures Argb(Alpha(color), Red(color), Green(color), Blue(color)) == color
  {
  }

  /** The red, green and blue channels of a packed colour, as the formatter takes them. */
  function RgbOf(color: bv32): (c: Rgb)
    ensures IsRgb(c)
  {
    Rgb(Red(color) as nat, Green(color) as nat, Blue(color) as nat)
  }

  /** `bitmap.getPixel(x, y)`: the buffer entry in row `y` (from the top) and column `x`. */
  function PixelAt(bitmap: Bitmap, x: int, y: int): (p: bv32)
    requires 0 <= x < bitmap.width && 0 <= y < bitmap.height
    ensures exists i :: (0 <= i < |bitmap.argb| && i / bitmap.width == y && i % bitmap.width == x
                         && p == bitmap.argb[i])
  {
    bitmap.argb[TexelIndex(x, y, bitmap.width, bitmap.height)]
  }

  /**
   * Lines 59-77 of `getPixelColorSync`: map the display point into the bitmap, read the
   * pixel and render its red, green and blue; alpha is dropped.
   */
  function ColorAt(bitmap: Bitmap, req: SampleRequest): (hex: string)
    requires req.HasDisplaySize()
    ensures IsHexColor(hex)
    ensures var p := PixelAt(bitmap, AndroidPixelIndex(req.x, bitmap.width, req.displayWidth),
                             AndroidPixelIndex(req.y, bitmap.height, req.displayHeight));
      ParseRgb(hex) == Some(RgbOf(p))
  {
    var imageX := AndroidPixelIndex(req.x, bitmap.width, req.displayWidth);
    var imageY := AndroidPixelIndex(req.y, bitmap.height, req.displayHeight);
    var pixel := PixelAt(bitmap, imageX, imageY);
    ParseFormatRoundTrip(RgbOf(pixel));
    FormatRgb(RgbOf(pixel))
  }

  // ---------------------------------------------------------------- insertion-ordered cache

  /** The cache never holds more bitmaps than this. */
  const MaxCacheSize: nat := 5

  /** A cache entry: the URI and its bitmap, kept in insertion order. */
  type Entry = (string, Bitmap)

  /** The keys of the map in iteration (insertion) order. */
  function Keys<V>(entries: seq<(string, V)>): (ks: seq<string>)
    ensures |ks| == |entries|
    ensures forall i :: 0 <= i < |entries| ==> ks[i] == entries[i].0
  {
    seq(|entries|, i requires 0 <= i < |entries| => entries[i].0)
  }

  predicate Distinct(ks: seq<string>) {
    forall i, j :: 0 <= i < j < |ks| ==> ks[i] != ks[j]
  }

  /** `map[key]`: the bitmap stored under `key`, if any. */
  function Find<V>(entries: seq<(string, V)>, key: string): (r: Option<V>)
    ensures r.None? <==> key !in Keys(entries)
    ensures Distinct(Keys(entries)) ==>
      forall i :: 0 <= i < |entries| && entries[i].0 == key ==> r == Some(entries[i].1)
  {
    if entries == [] then None
    else if entries[0].0 == key then Some(entries[0].1)
    else Find(entries[1..], key)
  }

  /** `map[key] = value`: a present key keeps its place and takes the new value; a new key goes last. */
  function Put<V>(entries: seq<(string, V)>, key: string, value: V): (r: seq<(string, V)>)
    ensures Keys(r) == if key in Keys(entries) then Keys(entries) else Keys(entries) + [key]
  {
    if entries == [] then [(key, value)]
    else if entries[0].0 == key then [(key, value)] + entries[1..]
    else
      var rest := Put(entries[1..], key, value);
      var r := [entries[0]] + rest;
      assert r[1..] == rest;
      r
  }

  /** After `map[key] = value`, `key` finds `value` and every other key finds what it found before. */
  lemma {:induction false} PutFind<V>(entries: seq<(string, V)>, key: string, value: V)
    ensures Find(Put(entries, key, value), key) == Some(value)
    ensures forall k :: k != key ==> Find(Put(entries, key, value), k) == Find(entries, k)
  {
    if entries != [] && entries[0].0 != key {
      PutFind(entries[1..], key, value);
      assert Put(entries, key, value)[1..] == Put(entries[1..], key, value);
    }
  }

  /** `map.remove(key)`: the entry for `key` goes, everything else keeps its order. */
  function RemoveKey<V>(entries: seq<(string, V)>, key: string): (r: seq<(string, V)>)
    ensures key !in Keys(entries) ==> r == entries
    ensures key in Keys(entries) ==> |r| == |entries| - 1
    ensures Distinct(Keys(entries)) ==> key !in Keys(r)
  {
    if entries == [] then []
    else if entries[0].0 == key then entries[1..]
    else
      var rest := RemoveKey(entries[1..], key);
      var r := [entries[0]] + rest;
      assert r[1..] == rest;
      assert Distinct(Keys(entries)) ==> Distinct(Keys(entries[1..]));
      r
  }

  /** `map.remove(key)` cuts out exactly one entry, the first with `key`, and keeps the rest in order. */
  lemma {:induction false} RemoveKeyOrder<V>(entries: seq<(string, V)>, key: string)
    requires key in Keys(entries)
    ensures exists i :: (0 <= i < |entries| && entries[i].0 == key
                         && (forall k :: 0 <= k < i ==> entries[k].0 != key)
                         && RemoveKey(entries, key) == entries[..i] + entries[i + 1..])
  {
    if entries[0].0 == key {
      assert RemoveKey(entries, key) == entries[..0] + entries[0 + 1..];
    } else {
      var tail := entries[1..];
      assert key in Keys(tail) by {
        var k :| 0 <= k < |entries| && Keys(entries)[k] == key;
        assert Keys(tail)[k - 1] == key;
      }
      RemoveKeyOrder(tail, key);
      var j :| 0 <= j < |tail| && tail[j].0 == key && (forall k :: 0 <= k < j ==> tail[k].0 != key)
        && RemoveKey(tail, key) == tail[..j] + tail[j + 1..];
      assert RemoveKey(entries, key) == [entries[0]] + RemoveKey(tail, key);
      ConsCut(entries, j);
      NoEarlierKey(entries, key, j);
      assert RemoveKey(entries, key) == entries[..j + 1] + entries[j + 1 + 1..];
    }
  }

  /** Putting the head back in front of a cut at `j` in the tail is a cut at `j + 1`. */
  lemma ConsCut<T>(s: seq<T>, j: nat)
    requires j + 1 < |s|
    ensures [s[0]] + (s[1..][..j] + s[1..][j + 1..]) == s[..j + 1] + s[j + 2..]
  {
    assert s[..j + 1] == [s[0]] + s[1..][..j];
    assert s[j + 2..] == s[1..][j + 1..];
  }

  /** No key before `j` in the tail and a different head: no key before `j + 1` in the whole. */
  lemma NoEarlierKey<V>(entries: seq<(string, V)>, key: string, j: nat)
    requires j + 1 < |entries| && entries[0].0 != key
    requires forall k :: 0 <= k < j ==> entries[1..][k].0 != key
    ensures forall k :: 0 <= k < j + 1 ==> entries[k].0 != key
  {
    forall k | 1 <= k < j + 1
      ensures entries[k].0 != key
    {
      assert entries[k] == entries[1..][k - 1];
    }
  }

  /** After `map.remove(key)` every other key finds what it found before. */
  lemma {:induction false} RemoveKeyFind<V>(entries: seq<(string, V)>, key: string)
    ensures forall k :: k != key ==> Find(RemoveKey(entries, key), k) == Find(entries, k)
  {
    if entries != [] && entries[0].0 != key {
      RemoveKeyFind(entries[1..], key);
      assert RemoveKey(entries, key)[1..] == RemoveKey(entries[1..], key);
    }
  }

  /** Lines 47-51: at capacity drop the first key, then insert. */
  function Insert<V>(entries: seq<(string, V)>, key: string, value: V): (r: seq<(string, V)>)
    ensures Find(r, key) == Some(value)
    ensures key !in Keys(entries) && |entries| >= MaxCacheSize ==> Keys(r) == Keys(entries)[1..] + [key]
    ensures key !in Keys(entries) && |entries| < MaxCacheSize ==> Keys(r) == Keys(entries) + [key]
    ensures forall k :: k != key && !(|entries| >= MaxCacheSize && k == entries[0].0) ==>
      Find(r, k) == Find(entries, k)
    ensures Distinct(Keys(entries)) && |entries| <= MaxCacheSize ==>
      Distinct(Keys(r)) && |r| <= MaxCacheSize
  {
    var kept := if |entries| >= MaxCacheSize then RemoveKey(entries, entries[0].0) else entries;
    assert |entries| >= MaxCacheSize ==> kept == entries[1..];
    assert |entries| >= MaxCacheSize ==> Keys(kept) == Keys(entries)[1..];
    assert Distinct(Keys(entries)) ==> Distinct(Keys(kept));
    PutFind(kept, key, value);
    Put(kept, key, value)
  }

  /** `PixelSamplerModule`: the module object and its bitmap cache. */
  class PixelSamplerModule {
    var bitmapCache: seq<Entry>

    /** Distinct keys, and never more than `maxCacheSize` bitmaps. */
    ghost predicate Valid()
      reads this
    {
      Distinct(Keys(bitmapCache)) && |bitmapCache| <= MaxCacheSize
    }

    constructor()
      ensures Valid() && bitmapCache == []
    {
      bitmapCache := [];
    }

    /** `bitmapCache[imageUri]`. */
    method Lookup(uri: string) returns (bitmap: Option<Bitmap>)
      ensures bitmap.None? <==> uri !in Keys(bitmapCache)
      ensures Distinct(Keys(bitmapCache)) ==>
        forall i :: 0 <= i < |bitmapCache| && bitmapCache[i].0 == uri ==> bitmap == Some(bitmapCache[i].1)
    {
      bitmap := Find(bitmapCache, uri);
    }

    /** Lines 47-51: evict the first key when full, then insert. */
    method CacheBitmap(uri: string, bitmap: Bitmap)
      requires Valid()
      modifies this
      ensures Valid()
      ensures bitmapCache == Insert(old(bitmapCache), uri, bitmap)
    {
      if |bitmapCache| >= MaxCacheSize {
        var first := bitmapCache[0].0;
        bitmapCache := RemoveKey(bitmapCache, first);
      }
      bitmapCache := Put(bitmapCache, uri, bitmap);
    }

    /** `getPixelColorSync`: look up, load and cache on a miss, then sample. */
    method GetPixelColorSync(host: Host, imageUri: string, x: real, y: real,
                             displayWidth: real, displayHeight: real)
      returns (hex: string)
      requires Valid()
      requires displayWidth != 0.0 && displayHeight != 0.0
      modifies this
      ensures Valid()
      ensures Outcome(hex, bitmapCache)
        == Sample(old(bitmapCache), host, SampleRequest(imageUri, x, y, displayWidth, displayHeight))
    {
      var req := SampleRequest(imageUri, x, y, displayWidth, displayHeight);
      var bitmap := Lookup(imageUri);
      if bitmap.None? {
        bitmap := LoadBitmap(host, imageUri);
        if bitmap.Some? {
          CacheBitmap(imageUri, bitmap.value);
        }
      }
      if bitmap.None? {
        return Fallback;
      }
      hex := ColorAt(bitmap.value, req);
    }
  }

  // ---------------------------------------------------------------- orchestration

  /** A call's answer and the cache it leaves behind. */
  datatype Outcome = Outcome(hex: string, cache: seq<Entry>)

  /** What `getPixelColorSync` answers and leaves in the cache, as a function of the cache it finds. */
  function Sample(cache: seq<Entry>, host: Host, req: SampleRequest): (out: Outcome)
    requires req.HasDisplaySize()
    ensures IsHexColor(out.hex)
    ensures Distinct(Keys(cache)) && |cache| <= MaxCacheSize ==>
      Distinct(Keys(out.cache)) && |out.cache| <= MaxCacheSize
    ensures Find(out.cache, req.uri).Some? || out == Outcome(Fallback, cache)
  {
    match Find(cache, req.uri)
    case Some(bitmap) => Outcome(ColorAt(bitmap, req), cache)
    case None =>
      match LoadBitmap(host, req.uri)
      case None => Outcome(Fallback, cache)
      case Some(bitmap) => Outcome(ColorAt(bitmap, req), Insert(cache, req.uri, bitmap))
  }

  /** A hit consults no loader: the answer and the cache are the same whatever the platform would say. */
  lemma HitLoadsNothing(cache: seq<Entry>, h1: Host, h2: Host, req: SampleRequest)
    requires req.HasDisplaySize() && req.uri in Keys(cache)
    ensures Sample(cache, h1, req) == Sample(cache, h2, req)
    ensures Sample(cache, h1, req).cache == cache
  {
  }

  /** A miss whose load succeeds caches exactly that bitmap and samples it. */
  lemma MissCachesLoaded(cache: seq<Entry>, host: Host, req: SampleRequest, bitmap: Bitmap)
    requires req.HasDisplaySize() && req.uri !in Keys(cache)
    requires LoadBitmap(host, req.uri) == Some(bitmap)
    ensures var out := Sample(cache, host, req);
      out.cache == Insert(cache, req.uri, bitmap) && Find(out.cache, req.uri) == Some(bitmap)
      && out.hex == ColorAt(bitmap, req)
  {
  }

  /** A miss whose load fails answers the fallback and leaves the cache as it was. */
  lemma FailedLoadFallsBack(cache: seq<Entry>, host: Host, req: SampleRequest)
    requires req.HasDisplaySize() && req.uri !in Keys(cache)
    requires LoadBitmap(host, req.uri) == None
    ensures Sample(cache, host, req) == Outcome(Fallback, cache)
  {
  }

  /**
   * Once a call has a bitmap for a URI, every later call for that URI is a hit: it needs no
   * loader, changes nothing, and repeating the very same request repeats the answer.
   */
  lemma RepeatIsHit(cache: seq<Entry>, host: Host, req: SampleRequest, later: Host, next: SampleRequest)
    requires req.HasDisplaySize() && next.HasDisplaySize() && next.uri == req.uri
    requires req.uri in Keys(cache) || LoadBitmap(host, req.uri).Some?
    ensures var first := Sample(cache, host, req);
      Find(first.cache, req.uri).Some?
      && Sample(first.cache, later, next) == Outcome(ColorAt(Find(first.cache, req.uri).value, next), first.cache)
      && (next == req ==> Sample(first.cache, later, next) == first)
  {
  }

  // ---------------------------------------------------------------- a run of insertions

  /** The cache after inserting each (URI, bitmap) pair in turn. */
  function InsertAll<V>(cache: seq<(string, V)>, inserts: seq<(string, V)>): seq<(string, V)>
    decreases |inserts|
  {
    if inserts == [] then cache
    else
      var last := inserts[|inserts| - 1];
      Insert(InsertAll(cache, inserts[..|inserts| - 1]), last.0, last.1)
  }

  /**
   * Starting from an empty cache, inserting distinct URIs leaves exactly the most recent
   * `maxCacheSize` of them (all of them while fewer), in insertion order: the oldest goes first.
   */
  lemma {:induction false} InsertAllKeepsNewest<V>(inserts: seq<(string, V)>)
    requires Distinct(Keys(inserts))
    ensures var n := |inserts|;
      InsertAll([], inserts) == inserts[n - Newest(n)..]
  {
    var n := |inserts|;
    if n > 0 {
      var prefix, last := inserts[..n - 1], inserts[n - 1];
      assert Keys(prefix) == Keys(inserts)[..n - 1];
      InsertAllKeepsNewest(prefix);
      InsertNewest(inserts, InsertAll([], prefix));
    }
  }

  /** One step of the run: the newest window of the earlier insertions, plus the last one. */
  lemma InsertNewest<V>(inserts: seq<(string, V)>, before: seq<(string, V)>)
    requires Distinct(Keys(inserts)) && |inserts| > 0
    requires var n := |inserts|; before == inserts[n - 1 - Newest(n - 1)..n - 1]
    ensures var n := |inserts|; var last := inserts[n - 1];
      Insert(before, last.0, last.1) == inserts[n - Newest(n)..]
  {
    var n := |inserts|;
    var last := inserts[n - 1];
    var lo := n - 1 - Newest(n - 1);
    LaterKeyIsNew(inserts, lo);
    InsertAbsent(before, last.0, last.1);
    WindowSnoc(inserts, lo);
  }

  /** With distinct keys, the last key is not among any run of the earlier ones. */
  lemma LaterKeyIsNew<V>(inserts: seq<(string, V)>, lo: nat)
    requires Distinct(Keys(inserts)) && lo < |inserts|
    ensures inserts[|inserts| - 1].0 !in Keys(inserts[lo..|inserts| - 1])
  {
    var n := |inserts|;
    var run := inserts[lo..n - 1];
    forall i | 0 <= i < |run|
      ensures Keys(run)[i] != inserts[n - 1].0
    {
      assert run[i] == inserts[lo + i];
      assert Keys(inserts)[lo + i] != Keys(inserts)[n - 1];
    }
  }

  /** How many of `n` distinct insertions an initially empty cache keeps. */
  function Newest(n: nat): (k: nat)
    ensures k <= n && k <= MaxCacheSize
  {
    if n < MaxCacheSize then n else MaxCacheSize
  }

  /** The window arithmetic of `InsertNewest`: drop the oldest when full, then append the last. */
  lemma WindowSnoc<T>(s: seq<T>, lo: nat)
    requires |s| > 0 && lo == |s| - 1 - Newest(|s| - 1)
    ensures var w := s[lo..|s| - 1];
      (if |w| >= MaxCacheSize then w[1..] else w) + [s[|s| - 1]] == s[|s| - Newest(|s|)..]
  {
    var n := |s|;
    if n - 1 - lo >= MaxCacheSize {
      assert s[lo..n - 1][1..] == s[lo + 1..n - 1];
      SnocSlice(s, lo + 1);
    } else {
      SnocSlice(s, lo);
    }
  }

  lemma SnocSlice<T>(s: seq<T>, lo: nat)
    requires lo < |s|
    ensures s[lo..|s| - 1] + [s[|s| - 1]] == s[lo..]
  {
  }

  /** Inserting a URI not yet cached appends it, after dropping the oldest entry when full. */
  lemma InsertAbsent<V>(entries: seq<(string, V)>, key: string, value: V)
    requires key !in Keys(entries)
    ensures Insert(entries, key, value)
      == (if |entries| >= MaxCacheSize then entries[1..] else entries) + [(key, value)]
  {
    if |entries| >= MaxCacheSize {
      assert RemoveKey(entries, entries[0].0) == entries[1..];
      assert Keys(entries[1..]) == Keys(entries)[1..];
      PutAbsentAppends(entries[1..], key, value);
    } else {
      PutAbsentAppends(entries, key, value);
    }
  }

  lemma {:induction false} PutAbsentAppends<V>(entries: seq<(string, V)>, key: string, value: V)
    requires key !in Keys(entries)
    ensures Put(entries, key, value) == entries + [(key, value)]
  {
    if entries != [] {
      assert Keys(entries) == [entries[0].0] + Keys(entries[1..]);
      PutAbsentAppends(entries[1..], key, value);
      assert [entries[0]] + (entries[1..] + [(key, value)]) == entries + [(key, value)];
    }
  }
}
