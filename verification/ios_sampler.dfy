/**
 * The iOS implementation (ios/PixelSamplerModule.swift): a process-wide dictionary cache that
 * is emptied when it overflows, orientation normalisation, the pixel read with un-premultiplied
 * alpha, and the hex rendering of the resulting UIColor.
 *
 * UIKit and Foundation are oracles held in a `Host` value: which paths exist, which files and
 * URLs decode to an image, and what redrawing an image upright yields.
 */
module IosSampler {
  import opened Wrappers
  import opened HexColor
  import opened Coordinates
  import opened UriScheme

  /** One texel as CoreGraphics draws it into an 8-bit, premultiplied-last RGBA context. */
  datatype Rgba = Rgba(r: nat, g: nat, b: nat, a: nat)

  predicate IsTexel(t: Rgba) {
    t.r < 256 && t.g < 256 && t.b < 256 && t.a < 256
  }

  datatype Raster = Raster(width: nat, height: nat, texels: seq<Rgba>)

  /** The backing bitmap of a UIImage: row-major, first row the visual top, 8-bit channels. */
  type CGImage = r: Raster
    | r.width >= 1 && r.height >= 1 && |r.texels| == r.width * r.height
      && forall i :: 0 <= i < |r.texels| ==> IsTexel(r.texels[i])
    witness Raster(1, 1, [Rgba(0, 0, 0, 0)])

  /** `UIImage.Orientation`: the rotation or flip the image's metadata asks for. */
  datatype Orientation = Up | Down | Left | Right | UpMirrored | DownMirrored | LeftMirrored | RightMirrored

  /**
   * A UIImage: its `size` in points, its orientation, and its CGImage, which UIKit may
   * not have (an image backed by something else).
   */
  datatype UIImage = UIImage(width: real, height: real, orientation: Orientation, cgImage: Option<CGImage>)

  /** A UIColor's components as `getRed(_:green:blue:alpha:)` reports them. */
  datatype UIColor = UIColor(red: real, green: real, blue: real, alpha: real)

  /** What the platform answers; a missing key is a failure (nil or a thrown error). */
  datatype Host = Host(
    existingPaths: set<string>,            // FileManager.default.fileExists(atPath:)
    imagesAtPath: map<string, UIImage>,    // UIImage(contentsOfFile:)
    imagesAtUrl: map<string, UIImage>,     // URL(string:), Data(contentsOf:), UIImage(data:)
    uprightRedraw: map<UIImage, CGImage>)  // drawing the image into a fresh context

  // ---------------------------------------------------------------- loading

  /** `loadImage(from:)`: dispatch on the scheme, then ask the platform. */
  function LoadImage(host: Host, uri: string): (image: Option<UIImage>)
    ensures HasPrefix(uri, PhotosScheme) ==> image == None
  {
    match ClassifyIos(uri)
    case ContentsOfFile(path) => Get(host.imagesAtPath, path)
    case PhotoLibrary(_) => None
    case PathOrUrl(s) =>
      if s in host.existingPaths then Get(host.imagesAtPath, s) else Get(host.imagesAtUrl, s)
  }

  /** A `file://` URI is read from the path after its first seven characters, and from nowhere else. */
  lemma FileUriReadsStrippedPath(host: Host, uri: string)
    requires HasPrefix(uri, FileScheme)
    ensures LoadImage(host, uri) == Get(host.imagesAtPath, uri[7..])
  {
  }

  /** An existing path is decoded as a file and never fetched as a URL, even when decoding fails. */
  lemma ExistingPathNeverFetched(host: Host, uri: string)
    requires !HasPrefix(uri, FileScheme) && !HasPrefix(uri, PhotosScheme)
    requires uri in host.existingPaths
    ensures LoadImage(host, uri) == Get(host.imagesAtPath, uri)
  {
  }

  /** Only a string that is neither a `file://`, a `ph://` nor an existing path is tried as a URL. */
  lemma UrlOnlyAsLastResort(host: Host, uri: string)
    ensures LoadImage(host, uri) != Get(host.imagesAtUrl, uri) ==>
      HasPrefix(uri, FileScheme) || HasPrefix(uri, PhotosScheme) || uri in host.existingPaths
  {
  }

  /** `normalizeImageOrientation`: upright images pass through; others are redrawn if UIKit can. */
  function NormalizeOrientation(host: Host, image: UIImage): (upright: UIImage)
    ensures image.orientation == Up ==> upright == image
    ensures upright.orientation == Up || upright == image
    ensures upright.width == image.width && upright.height == image.height
    ensures upright != image ==> image in host.uprightRedraw && upright.cgImage == Some(host.uprightRedraw[image])
    ensures image.orientation != Up && image in host.uprightRedraw ==>
      upright == UIImage(image.width, image.height, Up, Some(host.uprightRedraw[image]))
    ensures image.orientation != Up && image !in host.uprightRedraw ==> upright == image
  {
    if image.orientation == Up then image
    else if image in host.uprightRedraw then
      UIImage(image.width, image.height, Up, Some(host.uprightRedraw[image]))
    else image
  }

  // ---------------------------------------------------------------- pixel read

  /**
   * The colour of a premultiplied texel: channels scaled to [0, 1] and, when alpha is
   * positive, divided by alpha. With zero alpha the stored channels pass through.
   */
  function Unpremultiply(t: Rgba): (c: UIColor)
    ensures c.alpha == t.a as real / 255.0
    ensures c.alpha > 0.0 ==>
      c.red * c.alpha == t.r as real / 255.0
      && c.green * c.alpha == t.g as real / 255.0
      && c.blue * c.alpha == t.b as real / 255.0
    ensures c.alpha == 0.0 ==>
      c.red == t.r as real / 255.0 && c.green == t.g as real / 255.0 && c.blue == t.b as real / 255.0
  {
    var r := t.r as real / 255.0;
    var g := t.g as real / 255.0;
    var b := t.b as real / 255.0;
    var a := t.a as real / 255.0;
    if a > 0.0 then UIColor(r / a, g / a, b / a, a) else UIColor(r, g, b, a)
  }

  /**
   * `UIImage.pixelColor(at:)`: clamp the point into the CGImage's pixels, read that texel
   * (top-left origin) and un-premultiply it; no CGImage means no colour.
   */
  function PixelColor(image: UIImage, x: int, y: int): (c: Option<UIColor>)
    ensures c.Some? <==> image.cgImage.Some?
  {
    match image.cgImage
    case None => None
    case Some(cg) =>
      var px := ClampToLast(x, cg.width - 1);
      var py := ClampToLast(y, cg.height - 1);
      Some(Unpremultiply(cg.texels[TexelIndex(px, py, cg.width, cg.height)]))
  }

  /** One channel of `hexString`: `Int(max(0, min(255, v * 255)))`. */
  function ChannelByte(v: real): (n: nat)
    ensures n < 256
    ensures 0.0 <= v <= 1.0 ==> n as real <= v * 255.0 < n as real + 1.0
    ensures v <= 0.0 ==> n == 0
    ensures v >= 1.0 ==> n == 255
  {
    var scaled := v * 255.0;
    var clamped := if scaled < 0.0 then 0.0 else if scaled > 255.0 then 255.0 else scaled;
    clamped.Floor
  }

  /** `UIColor.hexString`: the three clamped channels rendered as "#RRGGBB"; alpha is dropped. */
  function HexString(c: UIColor): (s: string)
    ensures IsHexColor(s)
    ensures ParseRgb(s) == Some(Rgb(ChannelByte(c.red), ChannelByte(c.green), ChannelByte(c.blue)))
  {
    var rgb := Rgb(ChannelByte(c.red), ChannelByte(c.green), ChannelByte(c.blue));
    ParseFormatRoundTrip(rgb);
    FormatRgb(rgb)
  }

  /** An opaque texel is reported with exactly its stored channels. */
  lemma OpaqueTexelExact(t: Rgba)
    requires IsTexel(t) && t.a == 255
    ensures ParseRgb(HexString(Unpremultiply(t))) == Some(Rgb(t.r, t.g, t.b))
  {
    OpaqueColor(t);
    ByteScalesBack(t.r);
    ByteScalesBack(t.g);
    ByteScalesBack(t.b);
  }

  lemma OpaqueColor(t: Rgba)
    requires t.a == 255
    ensures Unpremultiply(t) == UIColor(t.r as real / 255.0, t.g as real / 255.0, t.b as real / 255.0, 1.0)
  {
    assert t.a as real / 255.0 == 1.0;
  }

  lemma ByteScalesBack(n: nat)
    requires n < 256
    ensures ChannelByte(n as real / 255.0) == n
  {
    assert n as real / 255.0 * 255.0 == n as real;
  }

  /**
   * A texel with zero alpha reports its stored channels unchanged; for a genuinely
   * premultiplied texel (no channel above alpha) that is black.
   */
  lemma ClearTexelPassesThrough(t: Rgba)
    requires IsTexel(t) && t.a == 0
    ensures ParseRgb(HexString(Unpremultiply(t))) == Some(Rgb(t.r, t.g, t.b))
    ensures t.r <= t.a && t.g <= t.a && t.b <= t.a ==> HexString(Unpremultiply(t)) == "#000000"
  {
    var s := HexString(Unpremultiply(t));
    assert Unpremultiply(t) == UIColor(t.r as real / 255.0, t.g as real / 255.0, t.b as real / 255.0, 0.0);
    ByteScalesBack(t.r);
    ByteScalesBack(t.g);
    ByteScalesBack(t.b);
    if t.r <= t.a && t.g <= t.a && t.b <= t.a {
      FormatParseRoundTrip(s);
      BlackIsZeros();
    }
  }

  lemma BlackIsZeros()
    ensures FormatRgb(Rgb(0, 0, 0)) == "#000000"
  {
    Format02XOfByte(0);
  }

  /** Integer un-premultiplication of one channel: `255 * c / a`, rounded down. */
  function DivideByAlpha(c: nat, a: nat): nat
    requires a > 0
  {
    255 * c / a
  }

  /**
   * For a premultiplied texel with positive alpha (no channel above alpha), each reported
   * channel is the stored channel divided by alpha and rounded down.
   */
  lemma TranslucentTexelUnpremultiplied(t: Rgba)
    requires IsTexel(t) && t.a > 0 && t.r <= t.a && t.g <= t.a && t.b <= t.a
    ensures ParseRgb(HexString(Unpremultiply(t)))
      == Some(Rgb(DivideByAlpha(t.r, t.a), DivideByAlpha(t.g, t.a), DivideByAlpha(t.b, t.a)))
  {
    UnpremultiplyDivides(t);
    UnpremultipliedChannel(t.r, t.a);
    UnpremultipliedChannel(t.g, t.a);
    UnpremultipliedChannel(t.b, t.a);
  }

  /** With positive alpha each colour channel is the scaled stored channel over the scaled alpha. */
  lemma UnpremultiplyDivides(t: Rgba)
    requires t.a > 0
    ensures var c := Unpremultiply(t); var a := t.a as real / 255.0;
      c.red == t.r as real / 255.0 / a && c.green == t.g as real / 255.0 / a
      && c.blue == t.b as real / 255.0 / a
  {
  }

  lemma UnpremultipliedChannel(c: nat, a: nat)
    requires 0 < a < 256 && c <= a
    ensures ChannelByte((c as real / 255.0) / (a as real / 255.0)) == DivideByAlpha(c, a)
  {
    var v := (c as real / 255.0) / (a as real / 255.0);
    ScaledQuotient(c as real, a as real);
    assert v <= 1.0 by { QuotientAtMostOne(c as real, a as real); }
    assert (255 * c) as real == 255.0 * c as real;
    FloorOfQuotient(255 * c, a);
  }

  /** Dividing both scaled values by 255 leaves the quotient alone. */
  lemma ScaledQuotient(c: real, a: real)
    requires a > 0.0
    ensures (c / 255.0) / (a / 255.0) * 255.0 == 255.0 * c / a
  {
    QuotientCancel(c, a);
  }

  lemma QuotientAtMostOne(c: real, a: real)
    requires 0.0 <= c <= a && a > 0.0
    ensures (c / 255.0) / (a / 255.0) <= 1.0
  {
    QuotientCancel(c, a);
    assert c / a <= 1.0 by {
      assert c / a * a == c;
    }
  }

  lemma QuotientCancel(c: real, a: real)
    requires a > 0.0
    ensures (c / 255.0) / (a / 255.0) == c / a
  {
    var q := c / a;
    assert q * a == c;
    assert q * (a / 255.0) == c / 255.0;
  }

  lemma FloorOfQuotient(p: nat, q: nat)
    requires q > 0
    ensures (p as real / q as real).Floor == p / q
  {
    var n, m := p / q, p % q;
    assert p == n * q + m && 0 <= m < q;
    assert p as real / q as real == n as real + m as real / q as real;
    assert 0.0 <= m as real / q as real < 1.0;
  }

  /**
   * Lines 54-69 of `getPixelColorSync`: scale by the UIImage's point size, truncate, read
   * the pixel (which clamps against the CGImage) and render it; no pixel gives the fallback.
   */
  function ColorAt(image: UIImage, req: SampleRequest): (hex: string)
    requires req.HasDisplaySize()
    ensures IsHexColor(hex)
    ensures image.cgImage.None? ==> hex == Fallback
  {
    var imageX := ScaledIndex(req.x, image.width, req.displayWidth);
    var imageY := ScaledIndex(req.y, image.height, req.displayHeight);
    match PixelColor(image, imageX, imageY)
    case Some(color) => HexString(color)
    case None => Fallback
  }

  /** The colour reported is that of the texel at the in-bounds mapped coordinate. */
  lemma ColorAtSamplesMappedTexel(image: UIImage, req: SampleRequest)
    requires req.HasDisplaySize() && image.cgImage.Some?
    ensures var cg := image.cgImage.value;
      var px := IosPixelIndex(req.x, image.width, req.displayWidth, cg.width);
      var py := IosPixelIndex(req.y, image.height, req.displayHeight, cg.height);
      0 <= px < cg.width && 0 <= py < cg.height
      && ColorAt(image, req) == HexString(Unpremultiply(cg.texels[TexelIndex(px, py, cg.width, cg.height)]))
  {
    var cg := image.cgImage.value;
    var sx := ScaledIndex(req.x, image.width, req.displayWidth);
    var sy := ScaledIndex(req.y, image.height, req.displayHeight);
    var px := ClampToLast(sx, cg.width - 1);
    var py := ClampToLast(sy, cg.height - 1);
    assert px == IosPixelIndex(req.x, image.width, req.displayWidth, cg.width);
    assert py == IosPixelIndex(req.y, image.height, req.displayHeight, cg.height);
    assert PixelColor(image, sx, sy) == Some(Unpremultiply(cg.texels[TexelIndex(px, py, cg.width, cg.height)]));
  }

  // ---------------------------------------------------------------- cache

  /** The cache is emptied when an insertion finds it holding more than this many images. */
  const OverflowCount: nat := 5

  /** Lines 41-44: empty the dictionary if it holds more than five images, then insert. */
  function Stored(cache: map<string, UIImage>, uri: string, image: UIImage): (r: map<string, UIImage>)
    ensures uri in r && r[uri] == image
    ensures |r| <= OverflowCount + 1
    ensures |cache| > OverflowCount ==> r.Keys == {uri}
    ensures |cache| <= OverflowCount ==> r.Keys == cache.Keys + {uri}
    ensures forall k :: k in r && k != uri ==> k in cache && r[k] == cache[k]
  {
    var kept := if |cache| > OverflowCount then map[] else cache;
    var r := kept[uri := image];
    assert r.Keys == kept.Keys + {uri};
    assert |r.Keys| <= |kept.Keys| + 1;
    r
  }

  /** The process-wide `imageCache` dictionary of normalised images, keyed by URI. */
  class ImageCache {
    var entries: map<string, UIImage>

    /** The bound the overflow rule keeps: never more than six images. */
    ghost predicate Valid()
      reads this
    {
      |entries| <= OverflowCount + 1
    }

    constructor()
      ensures Valid() && entries == map[]
    {
      entries := map[];
    }

    /** `imageCache[imageUri]`. */
    method Lookup(uri: string) returns (image: Option<UIImage>)
      ensures image.Some? <==> uri in entries
      ensures image.Some? ==> image.value == entries[uri]
    {
      image := Get(entries, uri);
    }

    /** The guarded insertion of lines 41-44. */
    method Store(uri: string, image: UIImage)
      modifies this
      ensures entries == Stored(old(entries), uri, image)
      ensures Valid()
    {
      if |entries| > OverflowCount {
        entries := map[];
      }
      entries := entries[uri := image];
    }
  }

  // ---------------------------------------------------------------- orchestration

  /** A call's answer and the cache it leaves behind. */
  datatype Outcome = Outcome(hex: string, cache: map<string, UIImage>)

  /** What `getPixelColorSync` answers and leaves in the cache, as a function of the cache it finds. */
  function Sample(cache: map<string, UIImage>, host: Host, req: SampleRequest): (out: Outcome)
    requires req.HasDisplaySize()
    ensures IsHexColor(out.hex)
    ensures |cache| <= OverflowCount + 1 ==> |out.cache| <= OverflowCount + 1
    ensures req.uri in out.cache || out == Outcome(Fallback, cache)
  {
    if req.uri in cache then Outcome(ColorAt(cache[req.uri], req), cache)
    else
      match LoadImage(host, req.uri)
      case None => Outcome(Fallback, cache)
      case Some(loaded) =>
        var image := NormalizeOrientation(host, loaded);
        Outcome(ColorAt(image, req), Stored(cache, req.uri, image))
  }

  /** `getPixelColorSync`: look up, load and normalise on a miss, cache, then sample. */
  method GetPixelColorSync(cache: ImageCache, host: Host, imageUri: string,
                           x: real, y: real, displayWidth: real, displayHeight: real)
    returns (hex: string)
    requires displayWidth != 0.0 && displayHeight != 0.0
    requires cache.Valid()
    modifies cache
    ensures cache.Valid()
    ensures Outcome(hex, cache.entries)
      == Sample(old(cache.entries), host, SampleRequest(imageUri, x, y, displayWidth, displayHeight))
  {
    var req := SampleRequest(imageUri, x, y, displayWidth, displayHeight);
    var image := cache.Lookup(imageUri);
    if image.None? {
      var loaded := LoadImage(host, imageUri);
      if loaded.Some? {
        image := Some(NormalizeOrientation(host, loaded.value));
        cache.Store(imageUri, image.value);
      }
    }
    if image.None? {
      return Fallback;
    }
    hex := ColorAt(image.value, req);
  }

  /** A hit consults no loader: the answer and the cache are the same whatever the platform would say. */
  lemma HitLoadsNothing(cache: map<string, UIImage>, h1: Host, h2: Host, req: SampleRequest)
    requires req.HasDisplaySize() && req.uri in cache
    ensures Sample(cache, h1, req) == Sample(cache, h2, req)
    ensures Sample(cache, h1, req) == Outcome(ColorAt(cache[req.uri], req), cache)
  {
  }

  /** A miss whose load succeeds leaves the normalised image cached under the URI and samples it. */
  lemma MissCachesNormalized(cache: map<string, UIImage>, host: Host, req: SampleRequest, loaded: UIImage)
    requires req.HasDisplaySize() && req.uri !in cache
    requires LoadImage(host, req.uri) == Some(loaded)
    ensures var out := Sample(cache, host, req);
      req.uri in out.cache && out.cache[req.uri] == NormalizeOrientation(host, loaded)
      && out.hex == ColorAt(NormalizeOrientation(host, loaded), req)
  {
  }

  /** A miss whose load fails answers the fallback and leaves the cache as it was. */
  lemma FailedLoadFallsBack(cache: map<string, UIImage>, host: Host, req: SampleRequest)
    requires req.HasDisplaySize() && req.uri !in cache
    requires LoadImage(host, req.uri) == None
    ensures Sample(cache, host, req) == Outcome(Fallback, cache)
  {
  }

  /**
   * Once a call has an image for a URI, every later call for that URI is a hit: it needs no
   * loader, changes nothing, and repeating the very same request repeats the answer.
   */
  lemma RepeatIsHit(cache: map<string, UIImage>, host: Host, req: SampleRequest, later: Host, next: SampleRequest)
    requires req.HasDisplaySize() && next.HasDisplaySize() && next.uri == req.uri
    requires req.uri in cache || LoadImage(host, req.uri).Some?
    ensures var first := Sample(cache, host, req);
      req.uri in first.cache
      && Sample(first.cache, later, next) == Outcome(ColorAt(first.cache[req.uri], next), first.cache)
      && (next == req ==> Sample(first.cache, later, next) == first)
  {
  }

  // ---------------------------------------------------------------- a run of insertions

  /** The cache after storing each (URI, image) pair in turn. */
  function StoreAll(cache: map<string, UIImage>, inserts: seq<(string, UIImage)>): map<string, UIImage>
    decreases |inserts|
  {
    if inserts == [] then cache
    else
      var last := inserts[|inserts| - 1];
      Stored(StoreAll(cache, inserts[..|inserts| - 1]), last.0, last.1)
  }

  /** The URIs among the insertions. */
  function KeySet(inserts: seq<(string, UIImage)>): set<string> {
    if inserts == [] then {} else KeySet(inserts[..|inserts| - 1]) + {inserts[|inserts| - 1].0}
  }

  predicate DistinctKeys(inserts: seq<(string, UIImage)>) {
    forall i, j :: 0 <= i < j < |inserts| ==> inserts[i].0 != inserts[j].0
  }

  /** How many of n distinct insertions survive: the cache grows to six, then restarts at one. */
  function Retained(n: nat): (k: nat)
    ensures k <= OverflowCount + 1 && k <= n
    ensures n > 0 ==> k > 0
  {
    if n == 0 then 0 else (n - 1) % (OverflowCount + 1) + 1
  }

  /**
   * Starting from an empty cache, n insertions of distinct URIs leave exactly the last
   * `Retained(n)` of them, each under its URI with its own image: sizes run 1, 2, ..., 6,
   * 1, 2, ... as each overflow clears the rest.
   */
  lemma StoreAllFromEmpty(inserts: seq<(string, UIImage)>)
    requires DistinctKeys(inserts)
    ensures var n := |inserts|;
      StoreAll(map[], inserts).Keys == KeySet(inserts[n - Retained(n)..])
      && |StoreAll(map[], inserts)| == Retained(n)
    ensures var n := |inserts|; var cache := StoreAll(map[], inserts);
      forall i :: n - Retained(n) <= i < n ==> inserts[i].0 in cache && cache[inserts[i].0] == inserts[i].1
  {
    var n := |inserts|;
    var cache := StoreAll(map[], inserts);
    var lo := n - Retained(n);
    RetainedKeys(inserts);
    StoreAllValues(map[], inserts);
    forall i | lo <= i < n
      ensures inserts[i].0 in cache
    {
      KeySetMembers(inserts[lo..], inserts[i].0);
      assert inserts[lo..][i - lo].0 == inserts[i].0;
    }
  }

  /** With distinct URIs, every inserted URI still cached holds the image inserted with it. */
  lemma {:induction false} StoreAllValues(cache: map<string, UIImage>, inserts: seq<(string, UIImage)>)
    requires DistinctKeys(inserts)
    ensures var after := StoreAll(cache, inserts);
      forall i :: 0 <= i < |inserts| && inserts[i].0 in after ==> after[inserts[i].0] == inserts[i].1
  {
    var n := |inserts|;
    if n > 0 {
      var prefix := inserts[..n - 1];
      assert DistinctKeys(prefix);
      StoreAllValues(cache, prefix);
      var before := StoreAll(cache, prefix);
      var after := StoreAll(cache, inserts);
      assert after == Stored(before, inserts[n - 1].0, inserts[n - 1].1);
      forall i | 0 <= i < n - 1 && inserts[i].0 in after
        ensures after[inserts[i].0] == inserts[i].1
      {
        assert prefix[i] == inserts[i];
      }
    }
  }

  /** The key set and the size of `StoreAllFromEmpty`, by induction on the insertions. */
  lemma {:induction false} RetainedKeys(inserts: seq<(string, UIImage)>)
    requires DistinctKeys(inserts)
    ensures var n := |inserts|;
      StoreAll(map[], inserts).Keys == KeySet(inserts[n - Retained(n)..])
      && |StoreAll(map[], inserts)| == Retained(n)
  {
    var n := |inserts|;
    if n > 0 {
      var prefix := inserts[..n - 1];
      var w := Retained(n - 1);
      assert DistinctKeys(prefix);
      RetainedKeys(prefix);
      assert prefix[n - 1 - w..] == inserts[n - 1 - w..n - 1];
      RetainedStep(n);
      StoreStep(inserts, StoreAll(map[], prefix), w);
    }
  }

  /**
   * One step of the run: a cache holding the last `w` earlier insertions takes the next one,
   * keeping only it after an overflow and all `w + 1` otherwise.
   */
  lemma StoreStep(inserts: seq<(string, UIImage)>, before: map<string, UIImage>, w: nat)
    requires DistinctKeys(inserts) && 0 < |inserts| && w < |inserts|
    requires var n := |inserts|; before.Keys == KeySet(inserts[n - 1 - w..n - 1]) && |before| == w
    ensures var n := |inserts|; var after := Stored(before, inserts[n - 1].0, inserts[n - 1].1);
      (w > OverflowCount ==> after.Keys == KeySet(inserts[n - 1..]) && |after| == 1)
      && (w <= OverflowCount ==> after.Keys == KeySet(inserts[n - 1 - w..]) && |after| == w + 1)
  {
    var n := |inserts|;
    if w > OverflowCount {
      StoredAfterOverflow(before, inserts[n - 1]);
      assert inserts[n - 1..] == [] + [inserts[n - 1]];
    } else {
      GrowStep(inserts, before, w);
    }
  }

  lemma GrowStep(inserts: seq<(string, UIImage)>, before: map<string, UIImage>, w: nat)
    requires DistinctKeys(inserts) && w < |inserts| && w <= OverflowCount
    requires var n := |inserts|; before.Keys == KeySet(inserts[n - 1 - w..n - 1]) && |before| == w
    ensures var n := |inserts|; var after := Stored(before, inserts[n - 1].0, inserts[n - 1].1);
      after.Keys == KeySet(inserts[n - 1 - w..]) && |after| == w + 1
  {
    var n := |inserts|;
    var older := inserts[n - 1 - w..n - 1];
    LastKeyIsNew(inserts, n - 1 - w);
    StoredBeforeOverflow(before, older, inserts[n - 1]);
    assert inserts[n - 1 - w..] == older + [inserts[n - 1]];
  }

  lemma StoredAfterOverflow(before: map<string, UIImage>, last: (string, UIImage))
    requires |before| > OverflowCount
    ensures Stored(before, last.0, last.1).Keys == KeySet([] + [last])
    ensures |Stored(before, last.0, last.1)| == 1
  {
    KeySetSnoc([], last);
    var after := Stored(before, last.0, last.1);
    assert after.Keys == {last.0};
  }

  lemma StoredBeforeOverflow(before: map<string, UIImage>, older: seq<(string, UIImage)>, last: (string, UIImage))
    requires |before| <= OverflowCount && before.Keys == KeySet(older) && last.0 !in KeySet(older)
    ensures Stored(before, last.0, last.1).Keys == KeySet(older + [last])
    ensures |Stored(before, last.0, last.1)| == |before| + 1
  {
    KeySetSnoc(older, last);
    var after := Stored(before, last.0, last.1);
    assert after.Keys == before.Keys + {last.0};
    assert |after.Keys| == |before.Keys| + 1;
  }

  lemma RetainedStep(n: nat)
    requires n > 0
    ensures Retained(n - 1) > OverflowCount ==> Retained(n) == 1
    ensures Retained(n - 1) <= OverflowCount ==> Retained(n) == Retained(n - 1) + 1
  {
  }

  lemma KeySetSnoc(inserts: seq<(string, UIImage)>, x: (string, UIImage))
    ensures KeySet(inserts + [x]) == KeySet(inserts) + {x.0}
  {
    assert (inserts + [x])[..|inserts|] == inserts;
  }

  lemma {:induction false} KeySetMembers(inserts: seq<(string, UIImage)>, k: string)
    ensures k in KeySet(inserts) <==> exists i :: 0 <= i < |inserts| && inserts[i].0 == k
  {
    if inserts != [] {
      var n := |inserts|;
      KeySetMembers(inserts[..n - 1], k);
      if k in KeySet(inserts[..n - 1]) {
        var i :| 0 <= i < n - 1 && inserts[..n - 1][i].0 == k;
        assert inserts[i].0 == k;
      }
      if exists i :: 0 <= i < n && inserts[i].0 == k {
        var i :| 0 <= i < n && inserts[i].0 == k;
        if i < n - 1 {
          assert inserts[..n - 1][i].0 == k;
        }
      }
    }
  }

  lemma LastKeyIsNew(inserts: seq<(string, UIImage)>, lo: nat)
    requires DistinctKeys(inserts) && lo < |inserts|
    ensures inserts[|inserts| - 1].0 !in KeySet(inserts[lo..|inserts| - 1])
  {
    var n := |inserts|;
    var part := inserts[lo..n - 1];
    KeySetMembers(part, inserts[n - 1].0);
    forall i | 0 <= i < |part|
      ensures part[i].0 != inserts[n - 1].0
    {
      assert part[i] == inserts[lo + i];
    }
  }
}
