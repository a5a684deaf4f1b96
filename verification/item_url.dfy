/**
 * The crawler's frontier record: a URL together with the crawl depth at
 * which it was discovered, plus the parts of `java.net.URL` the crawler
 * reads (its printed form, protocol, host and port).
 */
module ItemUrl {
  import opened Wrappers

  const MinInt32: int := -0x8000_0000
  const MaxInt32: int := 0x7FFF_FFFF

  /** Java's `int`. */
  type Int32 = x: int | -0x8000_0000 <= x <= 0x7FFF_FFFF

  /**
   * What `new URL(s)` extracts from a string: the form `toString()` prints
   * (the parser's canonical spelling, which need not be `s` itself: the
   * scheme is lower-cased, surrounding blanks and a `url:` prefix dropped),
   * the protocol, the host and the port (-1 when absent).
   */
  datatype UrlParts = UrlParts(text: string, protocol: string, host: string, port: int)

  /**
   * A parsed URL.  `text` is what `toString()` prints; every comparison the
   * crawler makes between URLs goes through it.
   */
  datatype Url = Url(text: string, protocol: string, host: string, port: int)

  /**
   * `new URL(s)`.  The parser itself is a parameter (`None` stands for a
   * `MalformedURLException`); the resulting URL prints as the parser's
   * canonical form, which is all the crawler ever compares.
   */
  function ParseUrl(s: string, parse: string -> Option<UrlParts>): (r: Option<Url>)
    ensures r.Some? <==> parse(s).Some?
    ensures r.Some? ==> r.value.text == parse(s).value.text && r.value.host == parse(s).value.host
  {
    match parse(s)
    case None => None
    case Some(p) => Some(Url(p.text, p.protocol, p.host, p.port))
  }

  /** A frontier entry: the URL to visit and its depth. */
  datatype Item = Item(url: Url, depth: Int32)

  /** `new ItemUrl(url, depth)`: the getters return what was passed in. */
  function NewItem(u: Url, d: Int32): (it: Item)
    ensures it.url == u
    ensures it.depth == d
  {
    Item(u, d)
  }

  /** `setUrl`: replaces the URL and keeps the depth. */
  function SetUrl(it: Item, u: Url): (r: Item)
    ensures r.url == u && r.depth == it.depth
  {
    it.(url := u)
  }

  /** `setDepth`: replaces the depth and keeps the URL. */
  function SetDepth(it: Item, d: Int32): (r: Item)
    ensures r.depth == d && r.url == it.url
  {
    it.(depth := d)
  }

  /** Each setter is undone by setting the old value back, and the two commute. */
  lemma SettersIndependent(it: Item, u: Url, d: Int32)
    ensures SetUrl(SetUrl(it, u), it.url) == it
    ensures SetDepth(SetDepth(it, d), it.depth) == it
    ensures SetUrl(SetDepth(it, d), u) == SetDepth(SetUrl(it, u), d)
  {
  }

  /**
   * `depth + 1` on a Java `int`: the true successor reduced into the 32-bit
   * range, so the largest depth wraps to the smallest.
   */
  function IncDepth(d: Int32): (r: Int32)
    ensures (r - (d + 1)) % 0x1_0000_0000 == 0
    ensures d < MaxInt32 ==> r == d + 1
  {
    if d == MaxInt32 then MinInt32 else d + 1
  }

  /** The successor is above its argument except at the wrap-around. */
  lemma IncDepthWraps(d: Int32)
    ensures IncDepth(d) > d <==> d != MaxInt32
    ensures d == MaxInt32 ==> IncDepth(d) == MinInt32
  {
  }
}
