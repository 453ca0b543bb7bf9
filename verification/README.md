# expo-pixel-sampler, modelled in Dafny

expo-pixel-sampler is an Expo native module with one operation: `getPixelColor(imageUri, x, y, displayWidth, displayHeight)`. It answers the colour, as a `#RRGGBB` string, of the image pixel under a point of the image as it is displayed. There are two native implementations, and this project models both:

- `ios/PixelSamplerModule.swift`. A process-wide dictionary caches orientation-normalised `UIImage`s and is emptied when it overflows. The pixel is read through an 8-bit premultiplied RGBA context and then un-premultiplied.
- `android/src/main/java/expo/modules/pixelsampler/PixelSamplerModule.kt`. The module object owns an insertion-ordered `bitmapCache` that drops its oldest key when it is full. The packed ARGB pixel is read directly.

The modules follow the pipeline:

| file | module | what it holds |
|---|---|---|
| `wrappers.dfy` | `Wrappers` | `Option` and dictionary lookup. |
| `hex_color.dfy` | `HexColor` | The `"#%02X%02X%02X"` rendering, and a parser that is its partner: round trips in both directions, injectivity, and the `#808080` fallback. |
| `coordinates.dfy` | `Coordinates` | The display-to-pixel mapping shared by both platforms: scale, truncation toward zero, then clamp. |
| `uri_scheme.dfy` | `UriScheme` | The prefix dispatch of `loadImage` (iOS) and `loadBitmap` (Android). |
| `ios_sampler.dfy` | `IosSampler` | The iOS pipeline. `ImageCache` is a class whose `entries` map is updated in place. |
| `android_sampler.dfy` | `AndroidSampler` | The Android pipeline. `PixelSamplerModule` is a class whose `bitmapCache` sequence, kept in insertion order, is updated in place. |

Both platforms' `getPixelColorSync` are methods. Each one's postcondition ties the returned string and the new cache to a pure `Sample` function. The properties of the pipeline are lemmas about `Sample`: a hit consults no loader, a miss caches the loaded image, a failed load falls back, and a repeated request is a hit with the same answer. The long-run behaviour of the two caches is also proved as lemmas.

The platform services are not code that can be verified. They are parameters instead: a `Host` value of maps, sets and a flag. In the maps, a missing key means that the call returned null or threw. These services are:

- whether a file exists;
- decoding a file, a content stream or a URL;
- whether a React context is present;
- UIKit's upright redraw.

Floating-point arithmetic is modelled with exact reals.

Three facts about the code shape the model:

- **iOS alpha 0.** `pixelColor` divides the channels by alpha only when alpha is positive (`ios/PixelSamplerModule.swift:159-163`). At alpha 0 it passes the stored channels through unchanged, and nothing forces black (`IosSampler.ClearTexelPassesThrough`). The bytes come from a `premultipliedLast` context (`ios/PixelSamplerModule.swift:140`), so after a normal draw a zero-alpha texel has zero colour channels and the answer is `#000000`. `IosSampler.IsTexel` and `IosSampler.CGImage` do not encode that constraint, so the model also covers texels no draw produces.
- **iOS cache size.** An insertion that finds more than five entries first empties the dictionary (`ios/PixelSamplerModule.swift:41-44`). Over distinct insertions the size therefore runs 1, 2, …, 6, 1, 2, … (`IosSampler.StoreAllFromEmpty`). Android's bound `maxCacheSize` is 5 and drops only the oldest key, so its cache holds the five newest keys (`AndroidSampler.InsertAllKeepsNewest`).
- **Android orientation.** Android decodes with `BitmapFactory` and never corrects orientation, so the Android model has no orientation step.

## Model

| member | source | states |
|---|---|---|
| HexColor.HexDigits | ios/PixelSamplerModule.swift:182 | `%X` digits of a value: at least one digit, all upper-case hex, denoting the value, no leading zero, and one digit exactly when the value is below 16 |
| HexColor.Format02X | ios/PixelSamplerModule.swift:182 | `%02X`: hex digits denoting the value, at least two; exactly two if and only if the value fits in a byte |
| HexColor.FormatRgb | ios/PixelSamplerModule.swift:182 | `#RRGGBB` from three channels: a well-formed 7-character colour when every channel fits in 8 bits, longer otherwise |
| HexColor.ParseRgb | android/src/main/java/expo/modules/pixelsampler/PixelSamplerModule.kt:77 | the partner parser: it succeeds exactly on well-formed `#RRGGBB` strings, and every result has 8-bit channels |
| HexColor.Format02XOfByte | android/src/main/java/expo/modules/pixelsampler/PixelSamplerModule.kt:77 | a byte renders as its high nibble digit followed by its low nibble digit |
| HexColor.ParseFormatRoundTrip | ios/PixelSamplerModule.swift:182 | parsing the rendering of an 8-bit colour gives the colour back |
| HexColor.FormatParseRoundTrip | android/src/main/java/expo/modules/pixelsampler/PixelSamplerModule.kt:77 | every well-formed colour string is the rendering of what it parses to |
| HexColor.FormatRgbInjective | ios/PixelSamplerModule.swift:182 | distinct 8-bit colours render to distinct strings |
| HexColor.FallbackIsGrey | ios/PixelSamplerModule.swift:51 | the fallback `#808080` is the rendering of grey (128, 128, 128), so a caller cannot tell it from a real grey pixel |
| Coordinates.Trunc | ios/PixelSamplerModule.swift:61-62 | `Int(_)`/`toInt()`: truncation toward zero, bounded from both sides for either sign |
| Coordinates.ClampToLast | ios/PixelSamplerModule.swift:125-126 | `max(0, min(v, last))` lies in `[0, last]`, leaves in-range values alone, sends negatives to 0 and values past `last` to `last` |
| Coordinates.CoerceIn | android/src/main/java/expo/modules/pixelsampler/PixelSamplerModule.kt:66-67 | `coerceIn(lo, hi)` lies in `[lo, hi]`, leaves in-range values alone, and saturates to `lo` below and to `hi` above |
| Coordinates.ScaledIndex | ios/PixelSamplerModule.swift:58-62 | the scaled coordinate `coord * (imageDim / displayDim)` truncated toward zero: within one of it, never farther from zero, for either sign and any non-zero display size |
| Coordinates.IosPixelIndex | ios/PixelSamplerModule.swift:58-62 | scaling by the point size, truncating, then clamping against the CGImage always yields a valid pixel index |
| Coordinates.AndroidPixelIndex | android/src/main/java/expo/modules/pixelsampler/PixelSamplerModule.kt:63-67 | scaling by the bitmap size, truncating and coercing always yields a valid pixel index |
| Coordinates.TexelIndex | android/src/main/java/expo/modules/pixelsampler/PixelSamplerModule.kt:70 | `(x, y)` from the top-left lands inside a row-major buffer and is recovered from the offset by division and remainder |
| Coordinates.PlatformsAgree | ios/PixelSamplerModule.swift:58-62 | when the image is as many points as pixels, iOS and Android sample the same index |
| Coordinates.IndexWithinDisplay | android/src/main/java/expo/modules/pixelsampler/PixelSamplerModule.kt:63-67 | a point inside the display needs no clamp, and pixel `p` is the one whose span `[p, p+1)`, scaled back, contains the point |
| Coordinates.IndexBeforeDisplay | android/src/main/java/expo/modules/pixelsampler/PixelSamplerModule.kt:66-67 | points at or before the display's start map to the first pixel |
| Coordinates.IndexPastDisplay | android/src/main/java/expo/modules/pixelsampler/PixelSamplerModule.kt:66-67 | points at or past the display's end map to the last pixel |
| Coordinates.IosIndexBeforeDisplay | ios/PixelSamplerModule.swift:125-126 | on iOS, points at or before the display's start sample the first pixel |
| Coordinates.IosIndexPastDisplay | ios/PixelSamplerModule.swift:125-126 | on iOS, points at or past the display's end sample the last pixel whenever the image has at least as many points as pixels |
| Coordinates.IosIndexWithinDisplay | ios/PixelSamplerModule.swift:55-62 | while the scaled point lands inside the CGImage, no clamp applies and the pixel p is the one with `p * displayDim <= coord * pointDim < (p + 1) * displayDim`: the point size, not the pixel size, decides |
| Coordinates.IndexMonotone | android/src/main/java/expo/modules/pixelsampler/PixelSamplerModule.kt:63-67 | moving the point right or down never moves the sampled pixel left or up |
| Coordinates.ScenarioUnitScale | android/src/main/java/expo/modules/pixelsampler/PixelSamplerModule.kt:63-67 | at unit scale, the point (50, 100) samples pixel (50, 100) |
| Coordinates.ScenarioTenthScale | android/src/main/java/expo/modules/pixelsampler/PixelSamplerModule.kt:63-67 | a 10-pixel image shown 100 wide maps 99 (9.9 pixels) to pixel 9 |
| Coordinates.ScenarioDoubleScale | ios/PixelSamplerModule.swift:55-62 | a 100-pixel, 50-point `@2x` image shown 100 wide samples pixel 30 for the point 60 |
| Coordinates.ScenarioNegativeDisplay | android/src/main/java/expo/modules/pixelsampler/PixelSamplerModule.kt:63-67 | a negative display size gives a finite negative scale, and both clamps send a point inside to pixel 0 |
| UriScheme.ClassifyIos | ios/PixelSamplerModule.swift:89-105 | the file route is taken if and only if the URI starts with `file://`, with 7 characters dropped; the photos route if and only if it starts with `ph://` |
| UriScheme.ClassifyAndroid | android/src/main/java/expo/modules/pixelsampler/PixelSamplerModule.kt:86-112 | one route per prefix, each if and only if: `file://` (prefix removed), `content://`, `http://` or `https://`; a bare path otherwise |
| UriScheme.ClassifyIosRoundTrip | ios/PixelSamplerModule.swift:91-92 | the iOS route determines the URI: only the `file://` marker is dropped, and it is restored |
| UriScheme.ClassifyAndroidRoundTrip | android/src/main/java/expo/modules/pixelsampler/PixelSamplerModule.kt:88-89 | the Android route determines the URI: `removePrefix` loses only the marker |
| UriScheme.IosFileRouteExact | ios/PixelSamplerModule.swift:91-93 | a path is read through the file route exactly when the URI is `file://` followed by that path |
| UriScheme.FileSchemeAgrees | android/src/main/java/expo/modules/pixelsampler/PixelSamplerModule.kt:88-90 | both platforms agree on which URIs are `file://` and on the path they strip to |
| UriScheme.IosSchemesExclusive | ios/PixelSamplerModule.swift:91-100 | no URI starts with both `file://` and `ph://` |
| UriScheme.AndroidSchemesExclusive | android/src/main/java/expo/modules/pixelsampler/PixelSamplerModule.kt:86-103 | the `file://`, `content://` and `http(s)://` prefixes exclude one another |
| IosSampler.LoadImage | ios/PixelSamplerModule.swift:89-113 | a `ph://` URI never yields an image |
| IosSampler.FileUriReadsStrippedPath | ios/PixelSamplerModule.swift:91-94 | a `file://` URI is decoded from the path after its first 7 characters, and from nowhere else |
| IosSampler.ExistingPathNeverFetched | ios/PixelSamplerModule.swift:103-105 | an existing path is decoded as a file and never fetched as a URL, even when decoding fails |
| IosSampler.UrlOnlyAsLastResort | ios/PixelSamplerModule.swift:107-112 | a URI is loaded other than as a URL only if it is `file://`, `ph://` or an existing path |
| IosSampler.NormalizeOrientation | ios/PixelSamplerModule.swift:74-87 | upright images pass through unchanged; any other image is replaced by an upright image of the same size holding the redrawn pixels when the redraw succeeds, and passes through unchanged when it fails |
| IosSampler.Unpremultiply | ios/PixelSamplerModule.swift:153-163 | alpha is `a/255`; with positive alpha, multiplying each channel back by alpha gives the stored value over 255; with alpha 0 the stored channels pass through |
| IosSampler.PixelColor | ios/PixelSamplerModule.swift:118-126 | there is a colour exactly when the image has a CGImage |
| IosSampler.ChannelByte | ios/PixelSamplerModule.swift:178-180 | `Int(max(0, min(255, v*255)))` is a byte: the floor of `v*255` for `v` in `[0, 1]`, 0 at or below 0, 255 at or above 1 |
| IosSampler.HexString | ios/PixelSamplerModule.swift:170-183 | a well-formed colour string whose parse is the three clamped channel bytes; alpha is dropped |
| IosSampler.OpaqueTexelExact | ios/PixelSamplerModule.swift:153-160 | an opaque texel reports exactly its stored channels |
| IosSampler.ClearTexelPassesThrough | ios/PixelSamplerModule.swift:163 | a texel with alpha 0 reports its stored channels; when those are premultiplied-consistent, that is `#000000` |
| IosSampler.TranslucentTexelUnpremultiplied | ios/PixelSamplerModule.swift:159-160 | a premultiplied texel with positive alpha reports `floor(255*c/a)` for each channel |
| IosSampler.ColorAt | ios/PixelSamplerModule.swift:54-69 | the answer is always a well-formed colour; an image without a CGImage gives the fallback |
| IosSampler.ColorAtSamplesMappedTexel | ios/PixelSamplerModule.swift:118-150 | the colour is that of the texel at the mapped, clamped, top-left-origin coordinate |
| IosSampler.Stored | ios/PixelSamplerModule.swift:41-44 | after insertion the URI maps to the image; a dictionary that held more than five entries now holds only this one; otherwise the keys grow by this URI and the other entries are unchanged; at most 6 entries |
| IosSampler.ImageCache.constructor | ios/PixelSamplerModule.swift:22 | the cache starts empty |
| IosSampler.ImageCache.Lookup | ios/PixelSamplerModule.swift:29-31 | an image is found exactly when the URI is cached, and it is the cached one |
| IosSampler.ImageCache.Store | ios/PixelSamplerModule.swift:39-45 | the new entries are `Stored` applied to the old ones, and the six-entry bound is kept |
| IosSampler.Sample | ios/PixelSamplerModule.swift:25-70 | always a well-formed colour; the size bound is preserved; either the URI is now cached, or the answer is the fallback and the cache is unchanged |
| IosSampler.GetPixelColorSync | ios/PixelSamplerModule.swift:25-70 | the returned string and the new cache are exactly `Sample` of the old cache; the cache bound is kept |
| IosSampler.HitLoadsNothing | ios/PixelSamplerModule.swift:29-34 | on a hit the platform is not consulted and the cache is unchanged |
| IosSampler.MissCachesNormalized | ios/PixelSamplerModule.swift:34-45 | on a successful miss the orientation-normalised image is cached and sampled |
| IosSampler.FailedLoadFallsBack | ios/PixelSamplerModule.swift:50-52 | a miss whose load fails answers `#808080` and leaves the cache alone |
| IosSampler.RepeatIsHit | ios/PixelSamplerModule.swift:29-48 | after a call that found an image, the same URI is a hit, and the same request gives the same answer with no further change |
| IosSampler.StoreAllFromEmpty | ios/PixelSamplerModule.swift:41-44 | n distinct insertions into an empty cache leave exactly the URIs of the last `((n-1) mod 6) + 1` of them, each mapped to the image inserted with it |
| IosSampler.StoreAllValues | ios/PixelSamplerModule.swift:41-44 | with distinct URIs, every inserted URI still cached maps to the image inserted with it |
| AndroidSampler.LoadBitmap | android/src/main/java/expo/modules/pixelsampler/PixelSamplerModule.kt:84-118 | a `content://` URI without a React context yields no bitmap |
| AndroidSampler.FileUriDecodesStrippedPath | android/src/main/java/expo/modules/pixelsampler/PixelSamplerModule.kt:88-91 | a `file://` URI is decoded from the path after the prefix, without an existence check |
| AndroidSampler.ContentUriReadsResolver | android/src/main/java/expo/modules/pixelsampler/PixelSamplerModule.kt:93-97 | with a React context, a `content://` URI loads exactly what the content resolver's stream decodes to |
| AndroidSampler.BarePathMustExist | android/src/main/java/expo/modules/pixelsampler/PixelSamplerModule.kt:105-111 | a path with no recognised prefix that does not exist yields no bitmap |
| AndroidSampler.ExistingBarePathDecoded | android/src/main/java/expo/modules/pixelsampler/PixelSamplerModule.kt:105-108 | a string with no known prefix that names an existing file is decoded from that path |
| AndroidSampler.WebUriIsFetched | android/src/main/java/expo/modules/pixelsampler/PixelSamplerModule.kt:99-103 | an `http://` or `https://` URI is fetched from the network and never looked up as a file |
| AndroidSampler.Red | android/src/main/java/expo/modules/pixelsampler/PixelSamplerModule.kt:73 | `Color.red` is bits 16-23: shifted back into place it equals the pixel masked to its red byte |
| AndroidSampler.Green | android/src/main/java/expo/modules/pixelsampler/PixelSamplerModule.kt:74 | `Color.green` is bits 8-15: shifted back into place it equals the pixel masked to its green byte |
| AndroidSampler.Blue | android/src/main/java/expo/modules/pixelsampler/PixelSamplerModule.kt:75 | `Color.blue` is bits 0-7: the pixel is its upper 24 bits together with this byte |
| AndroidSampler.Alpha | android/src/main/java/expo/modules/pixelsampler/PixelSamplerModule.kt:73-75 | `Color.alpha` is bits 24-31: shifted back into place it equals the pixel masked to its alpha byte |
| AndroidSampler.PixelAt | android/src/main/java/expo/modules/pixelsampler/PixelSamplerModule.kt:70 | `getPixel(x, y)` is the buffer entry whose offset divided by the width is row `y` and whose remainder is column `x` |
| AndroidSampler.ChannelsOfArgb | android/src/main/java/expo/modules/pixelsampler/PixelSamplerModule.kt:73-75 | `Color.red/green/blue` (and alpha) read back exactly the channels packed into an ARGB word |
| AndroidSampler.ArgbOfChannels | android/src/main/java/expo/modules/pixelsampler/PixelSamplerModule.kt:73-75 | the four extracted channels determine the pixel: repacking them gives it back |
| AndroidSampler.RgbOf | android/src/main/java/expo/modules/pixelsampler/PixelSamplerModule.kt:73-75 | the extracted red, green and blue are 8-bit values |
| AndroidSampler.ColorAt | android/src/main/java/expo/modules/pixelsampler/PixelSamplerModule.kt:59-77 | a well-formed colour whose parse is the red, green and blue of the pixel at the mapped coordinate |
| AndroidSampler.Find | android/src/main/java/expo/modules/pixelsampler/PixelSamplerModule.kt:40 | a bitmap is found exactly when the key is present, and with distinct keys it is the one stored under it |
| AndroidSampler.Put | android/src/main/java/expo/modules/pixelsampler/PixelSamplerModule.kt:51 | a present key keeps its place in the key order; a new key is appended last |
| AndroidSampler.PutFind | android/src/main/java/expo/modules/pixelsampler/PixelSamplerModule.kt:51 | after `map[key] = value`, the key finds the value and every other key finds what it found before |
| AndroidSampler.Keys | android/src/main/java/expo/modules/pixelsampler/PixelSamplerModule.kt:49 | `bitmapCache.keys` in insertion order: one key per entry, position by position |
| AndroidSampler.RemoveKey | android/src/main/java/expo/modules/pixelsampler/PixelSamplerModule.kt:49 | removing a present key shortens the map by one and (with distinct keys) the key is then absent; removing an absent key changes nothing |
| AndroidSampler.RemoveKeyFind | android/src/main/java/expo/modules/pixelsampler/PixelSamplerModule.kt:49 | after `map.remove(key)` every other key finds what it found before |
| AndroidSampler.RemoveKeyOrder | android/src/main/java/expo/modules/pixelsampler/PixelSamplerModule.kt:49 | removing a present key cuts out exactly its first entry and keeps every other entry in order |
| AndroidSampler.Insert | android/src/main/java/expo/modules/pixelsampler/PixelSamplerModule.kt:47-51 | the key finds the new bitmap; a new key is appended, after the oldest key is dropped when 5 are held; other lookups are unchanged except the dropped key; distinct keys and the 5-entry bound are kept |
| AndroidSampler.PixelSamplerModule.constructor | android/src/main/java/expo/modules/pixelsampler/PixelSamplerModule.kt:14 | the cache starts empty |
| AndroidSampler.PixelSamplerModule.Lookup | android/src/main/java/expo/modules/pixelsampler/PixelSamplerModule.kt:40 | a bitmap is found exactly when the URI is cached, and it is the cached one |
| AndroidSampler.PixelSamplerModule.CacheBitmap | android/src/main/java/expo/modules/pixelsampler/PixelSamplerModule.kt:47-51 | the new cache is `Insert` of the old one; distinct keys and at most 5 entries are kept |
| AndroidSampler.PixelSamplerModule.GetPixelColorSync | android/src/main/java/expo/modules/pixelsampler/PixelSamplerModule.kt:31-82 | the returned string and the new cache are exactly `Sample` of the old cache; the cache invariant is kept |
| AndroidSampler.Sample | android/src/main/java/expo/modules/pixelsampler/PixelSamplerModule.kt:31-82 | always a well-formed colour; distinct keys and the bound are preserved; either the URI is now cached, or the answer is the fallback and the cache is unchanged |
| AndroidSampler.HitLoadsNothing | android/src/main/java/expo/modules/pixelsampler/PixelSamplerModule.kt:40-43 | on a hit the platform is not consulted and the cache is unchanged |
| AndroidSampler.MissCachesLoaded | android/src/main/java/expo/modules/pixelsampler/PixelSamplerModule.kt:43-52 | on a successful miss the loaded bitmap is inserted and sampled |
| AndroidSampler.FailedLoadFallsBack | android/src/main/java/expo/modules/pixelsampler/PixelSamplerModule.kt:55-57 | a miss whose load fails answers `#808080` and leaves the cache alone |
| AndroidSampler.RepeatIsHit | android/src/main/java/expo/modules/pixelsampler/PixelSamplerModule.kt:40-53 | after a call that found a bitmap, the same URI is a hit, and the same request gives the same answer with no further change |
| AndroidSampler.InsertAbsent | android/src/main/java/expo/modules/pixelsampler/PixelSamplerModule.kt:47-51 | inserting a new URI appends it, after dropping the first (oldest) entry when 5 are held |
| AndroidSampler.PutAbsentAppends | android/src/main/java/expo/modules/pixelsampler/PixelSamplerModule.kt:51 | assigning a new key appends the entry at the end of the iteration order |
| AndroidSampler.InsertAllKeepsNewest | android/src/main/java/expo/modules/pixelsampler/PixelSamplerModule.kt:47-51 | after n distinct insertions into an empty cache, the cache is exactly the last `min(n, 5)` entries, in insertion order |

## Left out

- Floating-point arithmetic is modelled as exact reals. Rounding in `x * (imageWidth / displayWidth)` and in `r / a` is not modelled, and neither are NaN and infinity.
- A display size of zero is a precondition (`SampleRequest.HasDisplaySize`). With it the source divides by zero into an infinite or NaN scale. Swift's `Int(_)` then traps, and Kotlin's `toInt()` saturates, or gives 0 for NaN. A negative display size is modelled: its scale is finite and negative, and the clamp maps the point into the image (`Coordinates.ScenarioNegativeDisplay`). The bracket and monotonicity lemmas of `Coordinates` assume a positive display size.
- Swift's trap on `Int(_)` of a value outside the 64-bit range is not modelled. Integers are unbounded.
- IosSampler.NormalizeOrientation: UIKit's redraw into an upright context is an oracle (`Host.uprightRedraw`). The contract does not state which texel moves where for each of the eight orientations.
- IosSampler.PixelColor: the failure of `CGContext` creation (line 142) is not modelled. Drawing the image into the 1×1 context is modelled as reading the texel directly. The contract therefore ignores colour-space conversion and resampling.
- IosSampler.ColorAt: it scales by the `UIImage` point size and clamps against the CGImage pixel size, exactly as the code does. For an image whose scale is not 1, such as a file named `@2x`, it therefore samples a different pixel from the one displayed. `Coordinates.IosIndexWithinDisplay` fixes the pixel by the point size, and `Coordinates.ScenarioDoubleScale` gives an instance: pixel 30 for on-screen pixel 60. `Coordinates.PlatformsAgree` holds only when points equal pixels.
- Android orientation: `BitmapFactory` ignores EXIF orientation, and the code applies none, so an oriented photo is sampled in its stored orientation.
- Android's `Color.red`, `green` and `blue` are modelled as bit extraction from the packed 32-bit word. The signed `Int` is taken as its bit pattern.
- The Kotlin outer `catch` (lines 78-81) is not modelled separately. With a bitmap of at least one pixel and a clamped coordinate, nothing inside it can throw. `loadBitmap`'s own catch is a missing key of `Host`.
- `printStackTrace` calls, the `cacheQueue` serialisation on iOS, and concurrent calls on either platform are not modelled. The model is one call at a time.
- I/O is modelled as oracles: file existence, file and stream decoding, the content resolver and the network are maps or sets in `Host`, and the presence of a React context is the flag `Host.hasReactContext`. A `ph://` URI returns nil in the code itself (`ios/PixelSamplerModule.swift:97-99`), and the model does the same.
- Strings are sequences of Unicode code points. Swift's `hasPrefix` and `dropFirst(7)` (`ios/PixelSamplerModule.swift:91-92`) work on grapheme clusters instead, and Kotlin's `startsWith`/`removePrefix` on UTF-16 units. The two differ when a combining mark follows the prefix. For example, on `"file://" + U+0301 + "x"` Swift's `hasPrefix("file://")` is false, whereas `UriScheme.ClassifyIos` takes the file route. The prefix tests of `UriScheme` are therefore faithful only for URIs with no combining mark at the boundary.
- UriScheme.FileSchemeAgrees: it holds of the model's code-point strings only. On the grapheme-cluster input above, the Swift and Kotlin sources classify the URI differently.
- The Expo `definition()` blocks are not modelled: the sync `getPixelColor` and the async `getPixelColorAsync` both just call `getPixelColorSync`. `src/PixelSampler.ts` is not part of this model.
