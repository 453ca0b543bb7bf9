/**
 * URI scheme dispatch: how each platform decides where an image comes from. The checks are
 * case-sensitive prefix tests taken in a fixed order; what each route then loads is left to
 * the platform modules.
 */
module UriScheme {

  predicate HasPrefix(s: string, prefix: string) {
    |prefix| <= |s| && s[..|prefix|] == prefix
  }

  const FileScheme: string := "file://"
  const PhotosScheme: string := "ph://"
  const ContentScheme: string := "content://"
  const HttpScheme: string := "http://"
  const HttpsScheme: string := "https://"

  /** Where iOS's `loadImage` looks for the image. */
  datatype IosRoute =
    | ContentsOfFile(path: string)   // `file://` stripped: decode the file at `path`
    | PhotoLibrary(uri: string)      // `ph://`: never loaded
    | PathOrUrl(uri: string)         // an existing path, otherwise a URL

  /** Where Android's `loadBitmap` looks for the bitmap. */
  datatype AndroidRoute =
    | DecodeFile(path: string)       // `file://` removed: decode the file at `path`
    | ContentProvider(uri: string)   // `content://`: open through the content resolver
    | Network(url: string)           // `http://` or `https://`: open a connection
    | BarePath(path: string)         // anything else: a path that must exist

  /** iOS dispatch: `file://` first, then `ph://`, then everything else. */
  function ClassifyIos(uri: string): (route: IosRoute)
    ensures route.ContentsOfFile? <==> HasPrefix(uri, FileScheme)
    ensures route.PhotoLibrary? <==> HasPrefix(uri, PhotosScheme)
    ensures route.ContentsOfFile? ==> |route.path| == |uri| - 7
  {
    IosSchemesExclusive(uri);
    if HasPrefix(uri, FileScheme) then ContentsOfFile(uri[7..])
    else if HasPrefix(uri, PhotosScheme) then PhotoLibrary(uri)
    else PathOrUrl(uri)
  }

  /** Android dispatch: `file://`, then `content://`, then `http://` or `https://`, then a bare path. */
  function ClassifyAndroid(uri: string): (route: AndroidRoute)
    ensures route.DecodeFile? <==> HasPrefix(uri, FileScheme)
    ensures route.ContentProvider? <==> HasPrefix(uri, ContentScheme)
    ensures route.Network? <==> HasPrefix(uri, HttpScheme) || HasPrefix(uri, HttpsScheme)
    ensures route.DecodeFile? ==> |route.path| == |uri| - |FileScheme|
  {
    AndroidSchemesExclusive(uri);
    if HasPrefix(uri, FileScheme) then DecodeFile(uri[|FileScheme|..])
    else if HasPrefix(uri, ContentScheme) then ContentProvider(uri)
    else if HasPrefix(uri, HttpScheme) || HasPrefix(uri, HttpsScheme) then Network(uri)
    else BarePath(uri)
  }

  /** The URI a route was read from; the partner of `ClassifyIos`. */
  function IosRouteUri(route: IosRoute): string {
    match route
    case ContentsOfFile(path) => FileScheme + path
    case PhotoLibrary(uri) => uri
    case PathOrUrl(uri) => uri
  }

  /** The URI a route was read from; the partner of `ClassifyAndroid`. */
  function AndroidRouteUri(route: AndroidRoute): string {
    match route
    case DecodeFile(path) => FileScheme + path
    case ContentProvider(uri) => uri
    case Network(url) => url
    case BarePath(path) => path
  }

  /** iOS dispatch loses nothing: the route determines the URI, and `file://` is the only text dropped. */
  lemma ClassifyIosRoundTrip(uri: string)
    ensures IosRouteUri(ClassifyIos(uri)) == uri
  {
    if HasPrefix(uri, FileScheme) {
      assert uri == uri[..7] + uri[7..];
    }
  }

  /** Android dispatch loses nothing: the route determines the URI, and `file://` is the only text dropped. */
  lemma ClassifyAndroidRoundTrip(uri: string)
    ensures AndroidRouteUri(ClassifyAndroid(uri)) == uri
  {
    if HasPrefix(uri, FileScheme) {
      assert uri == uri[..7] + uri[7..];
    }
  }

  /** Only a URI that is `file://` followed by the path itself is read from that path. */
  lemma IosFileRouteExact(uri: string, path: string)
    ensures ClassifyIos(uri) == ContentsOfFile(path) <==> uri == FileScheme + path
  {
    ClassifyIosRoundTrip(uri);
    if uri == FileScheme + path {
      assert uri[..7] == FileScheme;
      assert uri[7..] == path;
    }
  }

  /** The two platforms strip `file://` the same way and agree on which URIs are local files. */
  lemma FileSchemeAgrees(uri: string)
    ensures ClassifyIos(uri).ContentsOfFile? <==> ClassifyAndroid(uri).DecodeFile?
    ensures ClassifyIos(uri).ContentsOfFile? ==> ClassifyIos(uri).path == ClassifyAndroid(uri).path
  {
  }

  /** `file://` and `ph://` exclude one another. */
  lemma IosSchemesExclusive(uri: string)
    ensures !(HasPrefix(uri, FileScheme) && HasPrefix(uri, PhotosScheme))
  {
    if HasPrefix(uri, FileScheme) {
      assert uri[0] == FileScheme[0] == 'f';
    }
    if HasPrefix(uri, PhotosScheme) {
      assert uri[0] == PhotosScheme[0] == 'p';
    }
  }

  /**
   * Android's four prefixes exclude one another, so the order of its checks decides nothing
   * except that the bare-path case comes last.
   */
  lemma AndroidSchemesExclusive(uri: string)
    ensures !(HasPrefix(uri, FileScheme) && HasPrefix(uri, ContentScheme))
    ensures !(HasPrefix(uri, FileScheme) && (HasPrefix(uri, HttpScheme) || HasPrefix(uri, HttpsScheme)))
    ensures !(HasPrefix(uri, ContentScheme) && (HasPrefix(uri, HttpScheme) || HasPrefix(uri, HttpsScheme)))
  {
    if HasPrefix(uri, FileScheme) {
      assert uri[0] == FileScheme[0] == 'f';
    }
    if HasPrefix(uri, ContentScheme) {
      assert uri[0] == ContentScheme[0] == 'c';
    }
    if HasPrefix(uri, HttpScheme) {
      assert uri[0] == HttpScheme[0] == 'h';
    }
    if HasPrefix(uri, HttpsScheme) {
      assert uri[0] == HttpsScheme[0] == 'h';
    }
  }
}
