/** The http and https URL parser and printer of include/base/httpcommon-inl.h and
    include/base/httpcommon.h (the URL form of section 3.2.2 of RFC 2616).

    Strings may hold NUL characters; `strchrn` stops at one, so they are modelled. */
module HttpUrl {

  const NUL: char := '\0'

  /** The members of class Url. */
  datatype UrlValue = UrlValue(host: string, port: nat, secure: bool, path: string, query: string)

  function DefaultPort(secure: bool): nat { if secure then 443 else 80 }

  /** Url::clear */
  const CLEARED := UrlValue("", 80, false, "/", "")

  // ---- the string functions used ----

  /** strchrn: position of the first `ch` that no NUL precedes, or |s| if there is none. */
  function Find(s: string, ch: char): (i: nat)
    ensures i <= |s|
    ensures i < |s| ==> s[i] == ch && NUL !in s[..i]
    ensures ch !in s[..i] || NUL in s
  {
    if s == "" then 0
    else if s[0] == NUL then |s|
    else if s[0] == ch then 0
    else 1 + Find(s[1..], ch)
  }

  function Lower(c: char): char { if 'A' <= c <= 'Z' then c - 'A' + 'a' else c }

  /** ascnicmp(s, lower-case prefix, |prefix|) == 0 */
  predicate HasPrefix(s: string, prefix: string) {
    |s| >= |prefix| && forall i :: 0 <= i < |prefix| ==> Lower(s[i]) == prefix[i]
  }

  predicate IsDigit(c: char) { '0' <= c <= '9' }

  predicate IsSpace(c: char) { c == ' ' || '\t' <= c <= '\r' }

  function DigitValue(c: char): nat requires IsDigit(c) { c as nat - '0' as nat }

  /** The value of the digits at the front of s, read after `acc`. */
  function Accumulate(acc: nat, s: string): nat
    decreases |s|
  {
    if s != "" && IsDigit(s[0]) then Accumulate(acc * 10 + DigitValue(s[0]), s[1..]) else acc
  }

  function SkipSpace(s: string): string {
    if s != "" && IsSpace(s[0]) then SkipSpace(s[1..]) else s
  }

  /** strtoul(s, NULL, 10) with the given ULONG_MAX: blanks, a sign, digits, saturation. */
  function StrToUl(s: string, ulongMax: nat): nat {
    var t := SkipSpace(s);
    var negative := t != "" && t[0] == '-';
    var v := Accumulate(0, if t != "" && (t[0] == '-' || t[0] == '+') then t[1..] else t);
    if v > ulongMax then ulongMax
    else if negative && v > 0 then ulongMax + 1 - v
    else v
  }

  /** %hu */
  function Decimal(n: nat): string {
    if n < 10 then ['0' + n as char] else Decimal(n / 10) + ['0' + (n % 10) as char]
  }

  // ---- parsing and printing ----

  function ParseFullPath(s: string): (string, string) {
    var q := Find(s, '?');
    (if q == 0 then "/" else s[..q], s[q..])
  }

  /** Host and port of the address `s[..len]`; the port number is read from the whole rest
      of the text, as strtoul does. */
  function ParseAddress(s: string, len: nat, secure: bool, ulongMax: nat): (string, nat)
    requires len <= |s|
  {
    var colon := Find(s[..len], ':');
    if colon < len then (s[..colon], StrToUl(s[colon + 1..], ulongMax) % 65536)
    else (s[..len], DefaultPort(secure))
  }

  function ParseRest(s: string, secure: bool, ulongMax: nat): UrlValue {
    var i := Find(s, '/');
    var (host, port) := ParseAddress(s, i, secure, ulongMax);
    var (path, query) := ParseFullPath(s[i..]);
    UrlValue(host, port, secure, path, query)
  }

  function Parse(s: string, ulongMax: nat): UrlValue {
    if HasPrefix(s, "http://") then ParseRest(s[7..], false, ulongMax)
    else if HasPrefix(s, "https://") then ParseRest(s[8..], true, ulongMax)
    else CLEARED
  }

  function PortText(u: UrlValue): string {
    if u.port != DefaultPort(u.secure) then ":" + Decimal(u.port) else ""
  }

  function Print(u: UrlValue): string {
    (if u.secure then "https://" else "http://") + (u.host + PortText(u) + (u.path + u.query))
  }

  /** The URLs that text can carry. */
  predicate WellFormed(u: UrlValue) {
    && NUL !in u.host && '/' !in u.host && ':' !in u.host
    && u.port < 65536
    && u.path != "" && u.path[0] == '/'
    && (if u.query == "" then Find(u.path, '?') == |u.path|
        else u.query[0] == '?' && '?' !in u.path && NUL !in u.path)
  }

  // ---- facts about searching ----

  /** A search passes over text that has neither the character nor a NUL. */
  lemma {:induction false} FindPast(a: string, b: string, ch: char)
    requires ch !in a && NUL !in a
    ensures Find(a + b, ch) == |a| + Find(b, ch)
  {
    if a == "" {
      assert a + b == b;
    } else {
      assert a[0] in a;
      assert (a + b)[1..] == a[1..] + b;
      FindPast(a[1..], b, ch);
    }
  }

  /** A search ends no later than any occurrence that no NUL precedes. */
  lemma {:induction false} FindNoLater(s: string, ch: char, k: nat)
    requires k < |s| && s[k] == ch && NUL !in s[..k] && ch != NUL
    ensures Find(s, ch) <= k
  {
    if k > 0 {
      assert s[..k][0] == s[0];
      assert s[1..][..k - 1] == s[..k][1..];
      FindNoLater(s[1..], ch, k - 1);
    }
  }

  /** NUL-free text in front of where a search ended does not hold the character. */
  lemma NotBefore(s: string, ch: char, n: nat)
    requires n <= Find(s, ch) && NUL !in s[..n] && ch != NUL
    ensures ch !in s[..n]
  {
    if ch in s[..n] {
      var k :| 0 <= k < n && s[..n][k] == ch;
      assert s[..k] == s[..n][..k];
      FindNoLater(s, ch, k);
    }
  }

  // ---- numbers ----

  lemma {:induction false} AccumulateConcat(acc: nat, d: string, t: string)
    requires forall i :: 0 <= i < |d| ==> IsDigit(d[i])
    ensures Accumulate(acc, d + t) == Accumulate(Accumulate(acc, d), t)
    decreases |d|
  {
    if d == "" {
      assert d + t == t;
    } else {
      assert (d + t)[1..] == d[1..] + t;
      AccumulateConcat(acc * 10 + DigitValue(d[0]), d[1..], t);
    }
  }

  /** Reading back what was printed. */
  lemma {:induction false} DecimalReadsBack(n: nat)
    ensures Decimal(n) != "" && forall i :: 0 <= i < |Decimal(n)| ==> IsDigit(Decimal(n)[i])
    ensures Accumulate(0, Decimal(n)) == n
  {
    if n < 10 {
      assert Decimal(n)[1..] == "";
    } else {
      DecimalReadsBack(n / 10);
      var last := ['0' + (n % 10) as char];
      AccumulateConcat(0, Decimal(n / 10), last);
      assert last[1..] == "";
    }
  }

  lemma PortReadsBack(n: nat, t: string, ulongMax: nat)
    requires n <= ulongMax && (t == "" || !IsDigit(t[0]))
    ensures StrToUl(Decimal(n) + t, ulongMax) == n
  {
    DecimalReadsBack(n);
    AccumulateConcat(0, Decimal(n), t);
    assert (Decimal(n) + t)[0] == Decimal(n)[0];
  }

  lemma {:induction false} SpaceSkipped(blanks: string, t: string)
    requires (forall i :: 0 <= i < |blanks| ==> IsSpace(blanks[i])) && (t == "" || !IsSpace(t[0]))
    ensures SkipSpace(blanks + t) == t
  {
    if blanks == "" {
      assert blanks + t == t;
    } else {
      assert (blanks + t)[1..] == blanks[1..] + t;
      SpaceSkipped(blanks[1..], t);
    }
  }

  /** What strtoul makes of blanks, a sign, a number and more text: a number too large becomes
      the largest, and a negative one is taken modulo the largest plus one. */
  lemma StrToUlMeans(blanks: string, sign: string, n: nat, t: string, ulongMax: nat)
    requires forall i :: 0 <= i < |blanks| ==> blanks[i] in {' ', '\t', '\n', '\U{0B}', '\U{0C}', '\r'}
    requires (t == "" || !IsDigit(t[0]))
    requires sign == "" || sign == "+" || sign == "-"
    ensures StrToUl(blanks + (sign + (Decimal(n) + t)), ulongMax)
         == if n > ulongMax then ulongMax else if sign == "-" && n > 0 then ulongMax + 1 - n else n
  {
    var number := Decimal(n) + t;
    DecimalReadsBack(n);
    AccumulateConcat(0, Decimal(n), t);
    assert number[0] == Decimal(n)[0];
    SpaceSkipped(blanks, sign + number);
    if sign == "" { assert sign + number == number; } else { assert (sign + number)[1..] == number; }
  }

  lemma PortTextPlain(u: UrlValue)
    ensures '/' !in PortText(u) && NUL !in PortText(u)
  {
    DecimalReadsBack(u.port);
  }

  // ---- round trips ----

  lemma DefaultPortParses(host: string, tail: string, secure: bool, ulongMax: nat)
    requires NUL !in host && ':' !in host
    ensures ParseAddress(host + tail, |host|, secure, ulongMax) == (host, DefaultPort(secure))
  {
    assert (host + tail)[..|host|] == host;
    FindPast(host, "", ':');
    assert host + "" == host;
  }

  lemma GivenPortParses(host: string, digits: string, port: nat, tail: string, secure: bool, ulongMax: nat)
    requires NUL !in host && ':' !in host && port < 65536 && StrToUl(digits + tail, ulongMax) == port
    ensures var address := host + (":" + digits);
            ParseAddress(address + tail, |address|, secure, ulongMax) == (host, port)
  {
    var text := ":" + digits;
    var address := host + text;
    var s := address + tail;
    assert s[..|address|] == address;
    assert Find(text, ':') == 0;
    FindPast(host, text, ':');
    assert s[..|host|] == host;
    assert s[|host| + 1..] == digits + tail;
  }

  lemma PrintedAddressParses(u: UrlValue, tail: string, ulongMax: nat)
    requires WellFormed(u) && ulongMax >= 65535 && tail != "" && tail[0] == '/'
    ensures var address := u.host + PortText(u);
            ParseAddress(address + tail, |address|, u.secure, ulongMax) == (u.host, u.port)
  {
    if u.port == DefaultPort(u.secure) {
      assert u.host + PortText(u) == u.host;
      DefaultPortParses(u.host, tail, u.secure, ulongMax);
    } else {
      PortReadsBack(u.port, tail, ulongMax);
      GivenPortParses(u.host, Decimal(u.port), u.port, tail, u.secure, ulongMax);
    }
  }

  lemma AddressReadsBack(u: UrlValue, ulongMax: nat)
    requires WellFormed(u) && ulongMax >= 65535
    ensures var address := u.host + PortText(u); var s := address + (u.path + u.query);
            Find(s, '/') == |address| && ParseAddress(s, |address|, u.secure, ulongMax) == (u.host, u.port)
  {
    var tail := u.path + u.query;
    assert tail[0] == '/';
    PortTextPlain(u);
    FindPast(u.host + PortText(u), tail, '/');
    PrintedAddressParses(u, tail, ulongMax);
  }

  lemma FullPathReadsBack(u: UrlValue)
    requires WellFormed(u)
    ensures ParseFullPath(u.path + u.query) == (u.path, u.query)
  {
    if u.query == "" {
      assert u.path + u.query == u.path;
    } else {
      FindPast(u.path, u.query, '?');
    }
  }

  lemma PrintedPrefix(rest: string)
    ensures HasPrefix("http://" + rest, "http://") && ("http://" + rest)[7..] == rest
    ensures HasPrefix("https://" + rest, "https://") && ("https://" + rest)[8..] == rest
    ensures !HasPrefix("https://" + rest, "http://")
  {
    assert Lower(("https://" + rest)[4]) == 's';
  }

  lemma PrintThenParse(u: UrlValue, ulongMax: nat)
    requires WellFormed(u) && ulongMax >= 65535
    ensures Parse(Print(u), ulongMax) == u
  {
    var address := u.host + PortText(u);
    var rest := address + (u.path + u.query);
    PrintedPrefix(rest);
    AddressReadsBack(u, ulongMax);
    FullPathReadsBack(u);
    assert rest[|address|..] == u.path + u.query;
  }

  /** The text is `lower` with any of its letters in upper case. */
  predicate Spells(text: string, lower: string) {
    |text| == |lower| && forall i :: 0 <= i < |lower| ==>
      text[i] == lower[i] || ('a' <= lower[i] <= 'z' && text[i] as int == lower[i] as int - 32)
  }

  lemma PrefixSpells(s: string, prefix: string)
    requires forall i :: 0 <= i < |prefix| ==> !('A' <= prefix[i] <= 'Z')
    ensures HasPrefix(s, prefix) <==> |s| >= |prefix| && Spells(s[..|prefix|], prefix)
  {
    if |s| >= |prefix| {
      var t := s[..|prefix|];
      forall i | 0 <= i < |prefix|
        ensures Lower(s[i]) == prefix[i] <==>
          t[i] == prefix[i] || ('a' <= prefix[i] <= 'z' && t[i] as int == prefix[i] as int - 32)
      {
      }
    }
  }

  /** A scheme in any letter case and a plain host: the ports are 80 and 443. */
  lemma SchemeAndPort(scheme: string, host: string, ulongMax: nat)
    requires '/' !in host && ':' !in host && NUL !in host
    ensures Spells(scheme, "http://") ==> Parse(scheme + host, ulongMax) == UrlValue(host, 80, false, "/", "")
    ensures Spells(scheme, "https://") ==> Parse(scheme + host, ulongMax) == UrlValue(host, 443, true, "/", "")
  {
    HostOnly(host, false, ulongMax);
    HostOnly(host, true, ulongMax);
    if Spells(scheme, "http://") { PlainScheme(scheme, host); }
    if Spells(scheme, "https://") { SecureScheme(scheme, host); }
  }

  lemma PlainScheme(scheme: string, rest: string)
    requires Spells(scheme, "http://")
    ensures var s := scheme + rest; HasPrefix(s, "http://") && s[7..] == rest
  {
    var s := scheme + rest;
    assert s[..7] == scheme;
    PrefixSpells(s, "http://");
  }

  lemma SecureScheme(scheme: string, rest: string)
    requires Spells(scheme, "https://")
    ensures var s := scheme + rest; HasPrefix(s, "https://") && !HasPrefix(s, "http://") && s[8..] == rest
  {
    var s := scheme + rest;
    assert s[..8] == scheme;
    PrefixSpells(s, "https://");
    assert "https://"[4] == 's' && "http://"[4] == ':' && s[4] == scheme[4];
    assert Lower(s[4]) == 's';
  }

  lemma HostOnly(host: string, secure: bool, ulongMax: nat)
    requires '/' !in host && ':' !in host && NUL !in host
    ensures ParseRest(host, secure, ulongMax) == UrlValue(host, if secure then 443 else 80, secure, "/", "")
  {
    assert host + "" == host;
    FindPast(host, "", '/');
    FindPast(host, "", ':');
    assert host[..|host|] == host && host[|host|..] == "";
  }

  /** Any other text leaves the cleared URL. */
  lemma OtherSchemesClear(s: string, ulongMax: nat)
    requires |s| >= 7 ==> !Spells(s[..7], "http://")
    requires |s| >= 8 ==> !Spells(s[..8], "https://")
    ensures Parse(s, ulongMax) == UrlValue("", 80, false, "/", "")
  {
    PrefixSpells(s, "http://");
    PrefixSpells(s, "https://");
  }

  /** Everything parsed is well formed unless a NUL got into the host. */
  lemma ParsedIsWellFormed(s: string, ulongMax: nat)
    ensures WellFormed(Parse(s, ulongMax)) <==> NUL !in Parse(s, ulongMax).host
  {
    if HasPrefix(s, "http://") { RestIsWellFormed(s[7..], false, ulongMax); }
    else if HasPrefix(s, "https://") { RestIsWellFormed(s[8..], true, ulongMax); }
    else { assert CLEARED.path == "/" && Find("/", '?') == 1; }
  }

  lemma RestIsWellFormed(s: string, secure: bool, ulongMax: nat)
    ensures var u := ParseRest(s, secure, ulongMax); WellFormed(u) <==> NUL !in u.host
  {
    var u := ParseRest(s, secure, ulongMax);
    var i := Find(s, '/');
    var colon := Find(s[..i], ':');
    assert u.host == s[..i][..colon];
    FullPathIsWellFormed(s[i..]);
    if NUL !in u.host {
      HostIsPlain(s, i, colon);
    }
  }

  lemma FullPathIsWellFormed(s: string)
    requires s == "" || s[0] == '/'
    ensures var (path, query) := ParseFullPath(s);
            && path != "" && path[0] == '/'
            && (if query == "" then Find(path, '?') == |path|
                else query[0] == '?' && '?' !in path && NUL !in path)
  {
    var q := Find(s, '?');
    if q == |s| {
      assert s[..q] == s;
      assert s == "" ==> Find("/", '?') == 1;
    } else {
      NotBefore(s, '?', q);
    }
  }

  lemma HostIsPlain(s: string, i: nat, colon: nat)
    requires i == Find(s, '/') && colon == Find(s[..i], ':') && NUL !in s[..colon]
    ensures '/' !in s[..colon] && ':' !in s[..colon]
  {
    assert s[..i][..colon] == s[..colon];
    NotBefore(s, '/', colon);
    NotBefore(s[..i], ':', colon);
  }

  /** A search never ends at or behind a NUL inside the text. */
  lemma FindBeforeNul(s: string, ch: char, n: nat)
    requires n < |s| && s[n] == NUL && ch != NUL
    ensures Find(s, ch) < n || Find(s, ch) == |s|
  {
    var i := Find(s, ch);
    assert n < i ==> s[..i][n] == NUL;
  }

  /** Behind a NUL in the host neither '/' nor ':' is seen, so the host swallows the rest. */
  lemma NulHostIsLost(u: UrlValue, rest: string, ulongMax: nat)
    requires NUL in u.host && rest != ""
    ensures ParseRest(u.host + rest, u.secure, ulongMax).host != u.host
  {
    var s := u.host + rest;
    var n :| 0 <= n < |u.host| && u.host[n] == NUL;
    FindBeforeNul(s, '/', n);
    var i := Find(s, '/');
    if i > n { FindBeforeNul(s[..i], ':', n); }
  }

  /** A URL survives printing and parsing exactly when it is well formed. */
  lemma SurvivesIffWellFormed(u: UrlValue, ulongMax: nat)
    requires ulongMax >= 65535
    ensures Parse(Print(u), ulongMax) == u <==> WellFormed(u)
  {
    if WellFormed(u) {
      PrintThenParse(u, ulongMax);
    } else {
      var rest := PortText(u) + (u.path + u.query);
      assert u.host + PortText(u) + (u.path + u.query) == u.host + rest;
      PrintedPrefix(u.host + rest);
      ParsedIsWellFormed(Print(u), ulongMax);
      if NUL in u.host && rest != "" { NulHostIsLost(u, rest, ulongMax); }
      if rest == "" {
        FullPathIsWellFormed((u.host + rest)[Find(u.host + rest, '/')..]);
      }
    }
  }

  /** Printing is a normal form: parsing a text, printing and parsing again gives the same
      URL exactly when no NUL got into the host. */
  lemma NormalForm(s: string, ulongMax: nat)
    requires ulongMax >= 65535
    ensures var u := Parse(s, ulongMax); Parse(Print(u), ulongMax) == u <==> NUL !in u.host
    ensures NUL !in s ==> var u := Parse(s, ulongMax); Parse(Print(u), ulongMax) == u
  {
    ParsedIsWellFormed(s, ulongMax);
    SurvivesIffWellFormed(Parse(s, ulongMax), ulongMax);
    if NUL !in s { HostFromText(s, ulongMax); }
  }

  lemma HostFromText(s: string, ulongMax: nat)
    requires NUL !in s
    ensures NUL !in Parse(s, ulongMax).host
  {
    assert NUL !in s[|s|..];
  }

  /** Two well-formed URLs with one text are one URL. */
  lemma PrintInjective(u: UrlValue, v: UrlValue)
    requires WellFormed(u) && WellFormed(v) && Print(u) == Print(v)
    ensures u == v
  {
    PrintThenParse(u, 65535);
    PrintThenParse(v, 65535);
  }

  // ---- the class ----

  class Url {
    var host: string
    var port: nat
    var secure: bool
    var path: string
    var query: string
    const ulongMax: nat

    ghost function Value(): UrlValue reads this { UrlValue(host, port, secure, path, query) }

    constructor (url: string, ulongMax: nat)
      ensures this.ulongMax == ulongMax && Value() == Parse(url, ulongMax)
    {
      this.ulongMax := ulongMax;
      host, port, secure, path, query := "", 80, false, "/", "";
      new;
      SetUrl(url);
    }

    method Clear()
      modifies this
      ensures Value() == CLEARED
    {
      host, port, secure, path, query := "", 80, false, "/", "";
    }

    method SetUrl(url: string)
      modifies this
      ensures Value() == Parse(url, ulongMax)
    {
      var rest;
      if HasPrefix(url, "http://") {
        rest, secure := url[7..], false;
      } else if HasPrefix(url, "https://") {
        rest, secure := url[8..], true;
      } else {
        Clear();
        return;
      }
      var i := Find(rest, '/');
      SetAddress(rest, i);
      var asserted := SetFullPath(rest[i..]);
      assert asserted;
    }

    method SetAddress(s: string, len: nat)
      requires len <= |s|
      modifies this`host, this`port
      ensures (host, port) == ParseAddress(s, len, secure, ulongMax)
    {
      var colon := Find(s[..len], ':');
      if colon < len {
        host := s[..colon];
        port := StrToUl(s[colon + 1..], ulongMax) % 65536;
      } else {
        host := s[..len];
        port := DefaultPort(secure);
      }
    }

    /** `asserted` is the original's ASSERT on a path that is not empty: without it the path
        need not start with '/'. */
    method SetFullPath(s: string) returns (asserted: bool)
      modifies this`path, this`query
      ensures (path, query) == ParseFullPath(s)
      ensures asserted <==> s == "" || s[0] == '/' || s[0] == '?'
      ensures path != "" && (asserted <==> path[0] == '/')
    {
      var q := Find(s, '?');
      asserted := q == 0 || s[0] == '/';
      path := if q == 0 then "/" else s[..q];
      query := s[q..];
    }

    method GetAddress() returns (text: string)
      ensures text == host + PortText(Value())
    {
      text := host;
      if port != DefaultPort(secure) { text := text + (":" + Decimal(port)); }
    }

    method GetUrl() returns (text: string)
      ensures text == Print(Value())
    {
      text := if secure then "https://" else "http://";
      var address := GetAddress();
      text := text + address;
      text := text + path;
      text := text + query;
    }
  }
}
