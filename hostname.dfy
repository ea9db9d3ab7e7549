/** `extractHostname`, which both background scripts define identically:
    take the host part of a URL by splitting on '/', then cut off a port
    after ':' and a query after '?'. */
module Hostname {
  import opened Strings

  /** The URL has a scheme separator "://" somewhere. */
  predicate HasScheme(url: string)
  {
    IndexOf(url, "://") > -1
  }

  /** A URL with "://" has at least two '/', so at least three '/'-segments. */
  lemma SchemeGivesThreeSegments(url: string)
    requires HasScheme(url)
    ensures |Split(url, '/')| >= 3
  {
    var i := IndexOf(url, "://") as nat;
    assert url[i..i + 3] == "://";
    assert url == url[..i + 1] + ['/', '/'] + url[i + 3..];
    CountConcat(url[..i + 1] + ['/', '/'], url[i + 3..], '/');
    CountConcat(url[..i + 1], ['/', '/'], '/');
  }

  /** The '/'-segment the host is taken from: the third one after a scheme, else the first. */
  function HostSegment(url: string): (seg: string)
    ensures '/' !in seg
    ensures HasScheme(url) ==> |Split(url, '/')| >= 3 && seg == Split(url, '/')[2]
    ensures !HasScheme(url) ==> seg == Split(url, '/')[0]
  {
    if HasScheme(url) then
      SchemeGivesThreeSegments(url);
      Split(url, '/')[2]
    else
      Split(url, '/')[0]
  }

  /** The hostname of `url`, as `extractHostname` computes it: a prefix of the host
      segment with no '/', ':' or '?' left in it. */
  function HostnameOf(url: string): (host: string)
    ensures '/' !in host && ':' !in host && '?' !in host
    ensures host <= HostSegment(url)
  {
    var seg := HostSegment(url);
    var noPort := Split(seg, ':')[0];
    SplitFirstIsPrefix(seg, ':');
    SplitFirstIsPrefix(noPort, '?');
    PrefixChars(noPort, seg);
    PrefixChars(Split(noPort, '?')[0], noPort);
    Split(noPort, '?')[0]
  }

  /** Every character of a prefix occurs in the whole string. */
  lemma PrefixChars(p: string, s: string)
    requires p <= s
    ensures forall c :: c in p ==> c in s
  {
    forall c | c in p ensures c in s {
      var i :| 0 <= i < |p| && p[i] == c;
      assert s[i] == c;
    }
  }

  /** `extractHostname(url)`, reassigning `hostname` step by step as the script does. */
  method ExtractHostname(url: string) returns (hostname: string)
    ensures hostname == HostnameOf(url)
    ensures '/' !in hostname && ':' !in hostname && '?' !in hostname
  {
    if IndexOf(url, "://") > -1 {
      SchemeGivesThreeSegments(url);
      hostname := Split(url, '/')[2];
    } else {
      hostname := Split(url, '/')[0];
    }
    hostname := Split(hostname, ':')[0];
    hostname := Split(hostname, '?')[0];
    HostnameCharacterised(url);
  }

  /** The hostname is the longest prefix of the host segment that has no ':' and no '?':
      it contains none of '/', ':', '?', it is a prefix of the segment, and the segment
      either ends there or continues with ':' or '?'. */
  lemma HostnameCharacterised(url: string)
    ensures '/' !in HostnameOf(url) && ':' !in HostnameOf(url) && '?' !in HostnameOf(url)
    ensures HostnameOf(url) <= HostSegment(url)
    ensures |HostnameOf(url)| < |HostSegment(url)| ==>
              HostSegment(url)[|HostnameOf(url)|] == ':' || HostSegment(url)[|HostnameOf(url)|] == '?'
  {
    var seg := HostSegment(url);
    var noPort := Split(seg, ':')[0];
    var host := Split(noPort, '?')[0];
    SplitFirstIsPrefix(seg, ':');
    SplitFirstIsPrefix(noPort, '?');
    forall c | c in host ensures c in noPort && c in seg {
      SplitPartsWithin(noPort, '?', 0, c);
      SplitPartsWithin(seg, ':', 0, c);
    }
    assert ':' !in host;
    if |host| < |seg| {
      if |host| < |noPort| {
        assert seg[|host|] == noPort[|host|];
      }
    }
  }

  /** A string with no '/', ':' or '?' is its own hostname. */
  lemma PlainHostIsFixed(host: string)
    requires '/' !in host && ':' !in host && '?' !in host
    ensures HostnameOf(host) == host
  {
    forall i: nat | i + 3 <= |host| ensures !OccursAt(host, "://", i) {
      assert host[i] in host;
    }
    SplitWithoutSeparator(host, '/');
    SplitWithoutSeparator(host, ':');
    SplitWithoutSeparator(host, '?');
  }

  /** Extracting a hostname twice gives the same as extracting it once. */
  lemma HostnameIdempotent(url: string)
    ensures HostnameOf(HostnameOf(url)) == HostnameOf(url)
  {
    HostnameCharacterised(url);
    PlainHostIsFixed(HostnameOf(url));
  }
}
