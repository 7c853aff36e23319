/** What the network responder answers on a handle, from the requests and the bytes they leave. */
module NetworkReplies {
  import opened Bytes
  import opened NetworkServer

  /** The window of `source` at `offset`, at most maxLen long, and eof when it reaches the end. */
  predicate IsWindow(r: Reply, source: seq<byte>, offset: nat, maxLen: nat) {
    && r.Chunk? && |r.data| == Max(0, Min(maxLen, |source| - offset))
    && (forall k :: 0 <= k < |r.data| ==> r.data[k] == source[offset + k])
    && (r.eof <==> offset + |r.data| >= |source|)
  }

  lemma WindowRead(source: seq<byte>, offset: nat, maxLen: nat)
    ensures var r := ReadData(source, offset, maxLen); IsWindow(Chunk(r.0, r.1), source, offset, maxLen)
  {}

  /** The k-th OPEN gets handle 0x1200 + k, and once that needs more than 16 bits the reply raises. It is writable
      unless it is a GET of anything but the echo URL. */
  lemma OpenAnswered(site: Site, run: seq<Request>, httpMethod: byte, url: Text)
    ensures Answer(site, Run(site, run), Open(httpMethod, url)) ==
      if 0x1200 + Opens(run) > 0xFFFF then Raises
      else Opened(0x1200 + Opens(run), httpMethod != 1 || url == site.echoUrl)
    ensures 0x1200 + Opens(run) in Step(site, Run(site, run), Open(httpMethod, url)).handles
  {
    HandlesInOrder(site, run);
  }

  /** A connection just opened reads as the page at its URL without the query, nothing if there is none, and
      nothing on the echo URL; INFO gives the length. */
  lemma OpenThenRead(site: Site, run: seq<Request>, httpMethod: byte, base: Text, query: Text, offset: nat, maxLen: nat)
    requires 63 !in base && (query == [] || query[0] == 63)
    ensures var url, h := base + query, 0x1200 + Opens(run);
      var now := Step(site, Run(site, run), Open(httpMethod, url));
      var source := if url == site.echoUrl || base !in site.pages then [] else site.pages[base];
      && IsWindow(Answer(site, now, Read(h, offset, maxLen)), source, offset, maxLen)
      && IsWindow(Answer(site, now, InfoRead(h, offset, maxLen)), source, offset, maxLen)
      && Answer(site, now, Info(h)) == Length(|source|)
  {
    HandlesInOrder(site, run);
    BaseIs(base, query);
    var url := base + query;
    var source := if url == site.echoUrl || base !in site.pages then [] else site.pages[base];
    WindowRead(source, offset, maxLen);
    hide Run, Opens, ReadData, BeforeQuery;
  }

  lemma {:induction false} BaseIs(base: Text, query: Text)
    requires 63 !in base && (query == [] || query[0] == 63)
    ensures BeforeQuery(base + query) == base
  {
    if base == [] {
      assert base + query == query;
    } else {
      assert (base + query)[1..] == base[1..] + query;
      BaseIs(base[1..], query);
    }
  }

  /** The value a selector asks for: "/url", "/headers/Host" and "/method", which is "GET" or "POST". */
  predicate IsSelected(site: Site, httpMethod: byte, selector: Text, value: seq<byte>) {
    && (selector == [47, 117, 114, 108] ==> value == site.selectedUrl)
    && (selector == [47, 104, 101, 97, 100, 101, 114, 115, 47, 72, 111, 115, 116] ==> value == site.selectedHost)
    && (selector == [47, 109, 101, 116, 104, 111, 100] ==>
          value == if httpMethod == 1 then [71, 69, 84] else [80, 79, 83, 84])
    && (|selector| != 4 && |selector| != 7 && |selector| != 13 ==> value == [])
    && (|selector| == 4 && selector != [47, 117, 114, 108] ==> value == [])
    && (|selector| == 7 && selector != [47, 109, 101, 116, 104, 111, 100] ==> value == [])
    && (|selector| == 13 && selector != [47, 104, 101, 97, 100, 101, 114, 115, 47, 72, 111, 115, 116] ==> value == [])
  }

  /** After TRANSLATE_CONFIGURE the handle reads as the selected value, whatever it was before, and the reply gives
      its length. INFO gives it too, except on the echo URL, where it still measures what was written. */
  lemma TranslateThenRead(site: Site, n: Net, h: nat, selector: Text, offset: nat, maxLen: nat)
    returns (value: seq<byte>)
    requires h in n.handles
    ensures IsSelected(site, n.handles[h].httpMethod, selector, value)
    ensures Answer(site, n, Translate(h, selector)) == Length(|value|)
    ensures var now := Step(site, n, Translate(h, selector));
      && IsWindow(Answer(site, now, Read(h, offset, maxLen)), value, offset, maxLen)
      && IsWindow(Answer(site, now, InfoRead(h, offset, maxLen)), value, offset, maxLen)
      && Answer(site, now, Info(h)) ==
         Length(if n.handles[h].url == site.echoUrl then |n.handles[h].written| else |value|)
      && now.handles[h] == n.handles[h].(translated := Some(value))
  {
    value := Translated(site, n.handles[h], selector);
    WindowRead(value, offset, maxLen);
    hide ReadData;
  }

  /** A WRITE is answered with its length and changes nothing but what was written. On the echo URL, as long as
      nothing is translated, that is what READ and INFO then give; elsewhere they do not notice. */
  lemma WriteThenRead(site: Site, n: Net, h: nat, at: nat, data: seq<byte>, offset: nat, maxLen: nat)
    requires h in n.handles
    ensures Answer(site, n, Write(h, at, data)) == Written(|data|)
    ensures var now := Step(site, n, Write(h, at, data));
      && h in now.handles && now.handles[h] == n.handles[h].(written := Overlay(n.handles[h].written, at, data))
      && (n.handles[h].url == site.echoUrl ==> Answer(site, now, Info(h)) == Length(|now.handles[h].written|))
      && (n.handles[h].url == site.echoUrl && n.handles[h].translated.None? ==>
          IsWindow(Answer(site, now, Read(h, offset, maxLen)), now.handles[h].written, offset, maxLen))
      && (n.handles[h].url != site.echoUrl || n.handles[h].translated.Some? ==>
          Answer(site, now, Read(h, offset, maxLen)) == Answer(site, n, Read(h, offset, maxLen)))
      && (n.handles[h].url != site.echoUrl ==> Answer(site, now, Info(h)) == Answer(site, n, Info(h)))
  {
    WindowRead(Overlay(n.handles[h].written, at, data), offset, maxLen);
    hide ReadData, Overlay;
  }

  /** On a handle that is not live, reads give nothing and eof, the rest fails, and nothing changes; a CLOSE is
      answered the same on any handle, and takes it away. */
  lemma DeadHandle(site: Site, n: Net, h: nat, offset: nat, maxLen: nat, data: seq<byte>, selector: Text)
    ensures Answer(site, n, Close(h)) == Closed && h !in Step(site, n, Close(h)).handles
    ensures h !in n.handles ==>
      && Answer(site, n, Read(h, offset, maxLen)) == Answer(site, n, InfoRead(h, offset, maxLen)) == Chunk([], true)
      && Answer(site, n, Write(h, offset, data)) == Answer(site, n, Info(h)) == Failed
      && Answer(site, n, Translate(h, selector)) == Failed
      && Step(site, n, Write(h, offset, data)) == Step(site, n, Translate(h, selector)) == n
  {}

  /** Reading and measuring change nothing. */
  lemma ReadsChangeNothing(site: Site, n: Net, h: nat, offset: nat, maxLen: nat)
    ensures Step(site, n, Read(h, offset, maxLen)) == Step(site, n, InfoRead(h, offset, maxLen)) == n
    ensures Step(site, n, Info(h)) == n
  {}
}
