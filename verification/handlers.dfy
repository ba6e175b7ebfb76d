/** The statable logic of graff/handlers.py: the mobile/desktop host
    redirect decided when a request handler is initialised and carried out
    in `prepare`, the cookies it sets on the way, the timestamp suffix of
    secure cookies, the signup username checks and the on-disk layout of
    uploaded photos. */
module Handlers {
  import opened Wrappers
  import opened Strings
  import Crypto

  // ------------------------------------------------ hosts and the m cookie

  const DesktopHost: string := "graffspotting.com"
  const MobileHost: string := "m.graffspotting.com"
  const SubdomainSuffix: string := ".graffspotting.com"

  /** The cookie remembering whether the visitor wants the mobile site. */
  const MobileCookieName: string := "m"

  /** A request is served in production when its host is the site's domain or a subdomain of it. */
  predicate IsProductionHost(host: string): (r: bool)
    ensures r ==> EndsWith(host, DesktopHost)
    ensures host == DesktopHost || host == MobileHost ==> r
  {
    if EndsWith(host, SubdomainSuffix) then
      assert host[|host| - |DesktopHost|..] == host[|host| - |SubdomainSuffix|..][1..];
      true
    else host == DesktopHost
  }

  /** One cookie the handler puts on the response: set to a value, or cleared. */
  datatype Cookie = Cookie(name: string, value: string, domain: Option<string>, cleared: bool)

  /** The host `initialize` decides to send the browser to, given the
      (lower-cased) request host, the m cookie and whether the user agent
      looks like a mobile one. */
  function RedirectTarget(host: string, mobileCookie: Option<string>, agentIsMobile: bool): (r: Option<string>)
    ensures r.Some? ==> r.value != host
    ensures r == Some(MobileHost) <==>
      host == DesktopHost && (mobileCookie == Some("1") || (mobileCookie.None? && agentIsMobile))
    ensures r == Some(DesktopHost) <==> host == MobileHost && mobileCookie == Some("0")
    ensures r.None? || r == Some(MobileHost) || r == Some(DesktopHost)
  {
    match mobileCookie
    case None =>
      if agentIsMobile && host == DesktopHost then Some(MobileHost) else None
    case Some(c) =>
      if host == MobileHost && c == "0" then Some(DesktopHost)
      else if host == DesktopHost && c == "1" then Some(MobileHost)
      else None
  }

  /** A request handler, as far as its host, its redirect decision, the
      `mobile` flag of its template environment and the cookies it sets go. */
  class RequestHandler {
    /** The request host, lower-cased. */
    var host: string
    var production: bool
    /** Where `prepare` redirects to, when `initialize` decided on a redirect. */
    var forceRedirect: Option<string>
    /** The `mobile` entry of the template environment; `None` when
        `initialize` returned early because of a redirect. */
    var mobile: Option<bool>
    /** The cookies set on the response so far, in order. */
    var cookies: seq<Cookie>

    /** `initialize`: reads the m cookie, sets it from the user agent when it
        is missing, and decides whether to redirect to the other site. */
    constructor (requestHost: string, mobileCookie: Option<string>, agentIsMobile: bool)
      ensures host == LowerAscii(requestHost)
      ensures production == IsProductionHost(host)
      ensures forceRedirect == RedirectTarget(host, mobileCookie, agentIsMobile)
      ensures mobileCookie.None? ==>
        cookies == [Cookie(MobileCookieName, if agentIsMobile then "1" else "0",
                           if production then Some(DesktopHost) else None, false)]
      ensures mobileCookie.Some? ==> cookies == []
      ensures forceRedirect.Some? ==> mobile.None?
      ensures forceRedirect.None? ==>
        mobile == Some(if mobileCookie.None? then agentIsMobile else mobileCookie.value == "1")
    {
      var lowered := LowerAscii(requestHost);
      host := lowered;
      production := IsProductionHost(lowered);
      forceRedirect := None;
      mobile := None;
      cookies := [];
      new;
      var isMobile: Option<bool> := None;
      if mobileCookie.None? {
        if agentIsMobile {
          SetCookie(MobileCookieName, "1", None);
          isMobile := Some(true);
          if lowered == DesktopHost {
            forceRedirect := Some(MobileHost);
            return;
          }
        } else {
          isMobile := Some(false);
          SetCookie(MobileCookieName, "0", None);
        }
      } else if lowered == MobileHost && mobileCookie.value == "0" {
        forceRedirect := Some(DesktopHost);
        return;
      } else if lowered == DesktopHost && mobileCookie.value == "1" {
        forceRedirect := Some(MobileHost);
        return;
      }
      if isMobile.None? {
        isMobile := Some(mobileCookie.value == "1");
      }
      mobile := isMobile;
    }

    /** `set_cookie`: a cookie without an explicit domain gets the site's
        domain when the handler serves production. */
    method SetCookie(name: string, value: string, domain: Option<string>)
      modifies this
      ensures cookies == old(cookies) + [Cookie(name, value, if domain.None? && production then Some(DesktopHost) else domain, false)]
      ensures host == old(host) && production == old(production)
      ensures forceRedirect == old(forceRedirect) && mobile == old(mobile)
    {
      var chosen := domain;
      if domain.None? && production {
        chosen := Some(DesktopHost);
      }
      cookies := cookies + [Cookie(name, value, chosen, false)];
    }

    /** `clear_cookie`, which goes through `set_cookie` and so gets the same domain. */
    method ClearCookie(name: string)
      modifies this
      ensures cookies == old(cookies) + [Cookie(name, "", if production then Some(DesktopHost) else None, true)]
      ensures host == old(host) && production == old(production)
      ensures forceRedirect == old(forceRedirect) && mobile == old(mobile)
    {
      cookies := cookies + [Cookie(name, "", if production then Some(DesktopHost) else None, true)];
    }

    /** `prepare`: the location of the redirect `initialize` decided on, if
        any: protocol, "://", the target host and the path, with "?" and the
        query only when there is a query. */
    method Prepare(protocol: string, path: string, query: string) returns (location: Option<string>)
      ensures location.Some? <==> forceRedirect.Some?
      ensures location.Some? ==>
        location.value == protocol + "://" + forceRedirect.value + path + (if query == [] then [] else "?" + query)
    {
      location := None;
      if forceRedirect.Some? {
        var target := protocol + "://" + forceRedirect.value + path;
        if query != [] {
          target := target + "?" + query;
        }
        location := Some(target);
      }
    }

    /** `set_secure_cookie`: the value, stamped with the time unless asked
        not to, is encrypted and set; packing a time beyond 32 bits fails
        and sets nothing. */
    method SetSecureCookie(name: string, value: Bytes, now: int, timestamp: bool, encrypt: Bytes -> string)
      returns (r: Result<(), Crypto.EncodeError>)
      modifies this
      ensures r.Err? <==> timestamp && !(0 <= now < TimestampLimit)
      ensures r.Err? ==> cookies == old(cookies)
      ensures r.Ok? ==>
        (cookies == old(cookies) + [Cookie(name, SecureCookieValue(value, now, timestamp, encrypt).value,
                                           if production then Some(DesktopHost) else None, false)])
      ensures host == old(host) && production == old(production)
      ensures forceRedirect == old(forceRedirect) && mobile == old(mobile)
    {
      var plain := value;
      if timestamp {
        var stamped := Stamp(value, now);
        if stamped.Err? {
          return Err(stamped.error);
        }
        plain := stamped.value;
      }
      SetCookie(name, encrypt(plain), None);
      r := Ok(());
    }

    /** `get_secure_cookie`: the default when the cookie is absent (or equal to
        the default); the decrypted value without its timestamp otherwise;
        the default, after clearing the cookie, when decryption fails. */
    method GetSecureCookie(name: string, stored: Option<string>, fallback: Option<string>,
                           decrypt: string -> Option<Bytes>, timestamp: bool)
      returns (r: SecureRead)
      modifies this
      ensures r == ReadSecureCookie(stored, fallback, decrypt, timestamp)
      ensures cookies == old(cookies) +
        (if RejectsSecureCookie(stored, fallback, decrypt)
         then [Cookie(name, "", if production then Some(DesktopHost) else None, true)]
         else [])
      ensures host == old(host) && production == old(production)
      ensures forceRedirect == old(forceRedirect) && mobile == old(mobile)
    {
      var val := if stored.Some? then stored else fallback;
      if val == fallback {
        return UseDefault;
      }
      var plain := decrypt(val.value);
      if plain.None? {
        ClearCookie(name);
        return UseDefault;
      }
      if timestamp {
        r := Plain(Unstamp(plain.value));
      } else {
        r := Plain(plain.value);
      }
    }
  }

  // ------------------------------------------------------- secure cookies

  /** `struct.calcsize('<I')`. */
  const TimestampSize: nat := 4
  /** The times `struct.pack('<I', ...)` accepts: unsigned 32-bit seconds. */
  const TimestampLimit: nat := Crypto.IdLimit

  /** `value + struct.pack('<I', now)`: the value followed by the time as 4
      little-endian bytes, or `struct.error` for a time outside 32 bits. */
  function Stamp(value: Bytes, now: int): (r: Result<Bytes, Crypto.EncodeError>)
    ensures r.Ok? <==> 0 <= now < TimestampLimit
    ensures r.Ok? ==> |r.value| == |value| + TimestampSize && r.value[..|value|] == value
    ensures r.Ok? ==> Crypto.UnpackU32(r.value[|value|..]) == now
  {
    match Crypto.PackU32(now)
    case Err(e) => Err(e)
    case Ok(packed) =>
      assert (value + packed)[|value|..] == packed;
      Ok(value + packed)
  }

  /** `val[:-struct.calcsize('<I')]`: everything but the last 4 bytes. */
  function Unstamp(val: Bytes): (r: Bytes)
    ensures |r| == if |val| >= TimestampSize then |val| - TimestampSize else 0
    ensures StartsWith(val, r)
  {
    DropLast(val, TimestampSize)
  }

  /** The cookie value `set_secure_cookie` writes: the (stamped) value, encrypted. */
  function SecureCookieValue(value: Bytes, now: int, timestamp: bool, encrypt: Bytes -> string): (r: Result<string, Crypto.EncodeError>)
    ensures r.Err? <==> timestamp && !(0 <= now < TimestampLimit)
    ensures r.Ok? && !timestamp ==> r.value == encrypt(value)
    ensures r.Ok? && timestamp ==> r.value == encrypt(Stamp(value, now).value)
  {
    if !timestamp then Ok(encrypt(value))
    else
      match Stamp(value, now)
      case Err(e) => Err(e)
      case Ok(stamped) => Ok(encrypt(stamped))
  }

  /** What `get_secure_cookie` hands back: its default, or a decrypted value. */
  datatype SecureRead = UseDefault | Plain(value: Bytes)

  /** Decryption of a present cookie that differs from the default failed,
      so `get_secure_cookie` clears it. */
  predicate RejectsSecureCookie(stored: Option<string>, fallback: Option<string>, decrypt: string -> Option<Bytes>)
  {
    stored.Some? && stored != fallback && decrypt(stored.value).None?
  }

  /** The result of `get_secure_cookie` for the cookie value the request carries. */
  function ReadSecureCookie(stored: Option<string>, fallback: Option<string>,
                            decrypt: string -> Option<Bytes>, timestamp: bool): (r: SecureRead)
    ensures r == UseDefault <==> stored.None? || stored == fallback || decrypt(stored.value).None?
    ensures r.Plain? && timestamp ==> r.value == Unstamp(decrypt(stored.value).value)
    ensures r.Plain? && !timestamp ==> r.value == decrypt(stored.value).value
  {
    if stored.None? || stored == fallback then UseDefault
    else
      match decrypt(stored.value)
      case None => UseDefault
      case Some(plain) => if timestamp then Plain(Unstamp(plain)) else Plain(plain)
  }

  /** Removing the timestamp gives back exactly the stamped value. */
  lemma UnstampStamp(value: Bytes, now: int)
    requires 0 <= now < TimestampLimit
    ensures Unstamp(Stamp(value, now).value) == value
  {
    var stamped := Stamp(value, now).value;
    assert stamped[..|stamped| - TimestampSize] == stamped[..|value|];
  }

  /** Reading a secure cookie gives back the value written, without its
      timestamp, whenever decryption undoes encryption. */
  lemma SecureCookieRoundTrip(value: Bytes, now: int, encrypt: Bytes -> string,
                              decrypt: string -> Option<Bytes>, fallback: Option<string>)
    requires 0 <= now < TimestampLimit
    requires decrypt(encrypt(Stamp(value, now).value)) == Some(Stamp(value, now).value)
    requires fallback != Some(encrypt(Stamp(value, now).value))
    ensures ReadSecureCookie(Some(SecureCookieValue(value, now, true, encrypt).value), fallback, decrypt, true) == Plain(value)
  {
    UnstampStamp(value, now);
  }

  // -------------------------------------------------- signup name checks

  const ReservedName: string := "anonymous"
  const MinNameLength: nat := 2
  const MaxNameLength: nat := 32

  /** The character class of `NAME_RE`, item by item: the range '#'..'_',
      '~', ASCII letters, digits and the characters @ ! $ & * \ / ^ : = ' ".
      Put together, the class is the characters '!'..'_', 'a'..'z' and '~';
      in particular space, '`', '{', '|', '}' and newline are outside it. */
  predicate InNameClass(c: char): (r: bool)
    ensures r <==> ('!' <= c <= '_') || ('a' <= c <= 'z') || c == '~'
    ensures c == ' ' || c == '`' || c == '{' || c == '|' || c == '}' || c == '\n' ==> !r
  {
    || ('#' <= c <= '_') || c == '~' || ('a' <= c <= 'z') || ('A' <= c <= 'Z') || ('0' <= c <= '9')
    || c == '@' || c == '!' || c == '$' || c == '&' || c == '*' || c == '\\' || c == '/'
    || c == '^' || c == ':' || c == '=' || c == '\'' || c == '"'
  }

  /** How many leading characters the greedy `[...]*` of `NAME_RE` consumes. */
  function ClassPrefixLength(s: string): (k: nat)
    ensures k <= |s|
    ensures forall i :: 0 <= i < k ==> InNameClass(s[i])
    ensures k < |s| ==> !InNameClass(s[k])
  {
    if s == [] || !InNameClass(s[0]) then 0 else 1 + ClassPrefixLength(s[1..])
  }

  /** `NAME_RE.match(s)`: once the class run ends, `$` has to find the end of
      the string or a newline that is its last character. So a name matches
      exactly when all its characters are in the class, or all but a final
      newline are. */
  predicate NameMatches(s: string): (r: bool)
    ensures r <==>
      (forall i :: 0 <= i < |s| ==> InNameClass(s[i])) ||
      (s != [] && s[|s| - 1] == '\n' && forall i :: 0 <= i < |s| - 1 ==> InNameClass(s[i]))
  {
    var k := ClassPrefixLength(s);
    k == |s| || (k == |s| - 1 && s[k] == '\n')
  }

  /** Why `SignupHandler.post` turns a name down. */
  datatype NameError = CharactersNotAllowed | Reserved | TooShort | TooLong

  /** The checks of `SignupHandler.post` in their order; the first that fails
      decides the error, `None` lets the signup go ahead. */
  function ValidateName(name: string): (r: Option<NameError>)
    ensures r == Some(CharactersNotAllowed) <==> !NameMatches(name)
    ensures r == Some(Reserved) <==> NameMatches(name) && LowerAscii(name) == ReservedName
    ensures r == Some(TooShort) <==>
      NameMatches(name) && LowerAscii(name) != ReservedName && |name| < MinNameLength
    ensures r == Some(TooLong) <==>
      NameMatches(name) && LowerAscii(name) != ReservedName && |name| > MaxNameLength
    ensures r.None? <==>
      NameMatches(name) && LowerAscii(name) != ReservedName && MinNameLength <= |name| <= MaxNameLength
  {
    if !NameMatches(name) then Some(CharactersNotAllowed)
    else if LowerAscii(name) == ReservedName then Some(Reserved)
    else if |name| < MinNameLength then Some(TooShort)
    else if |name| > MaxNameLength then Some(TooLong)
    else None
  }

  /** A name is accepted exactly when it has 2 to 32 characters, all in the
      class except possibly a final newline, and is not "anonymous" in any case. */
  lemma NameAcceptedIff(name: string)
    ensures ValidateName(name).None? <==>
      && MinNameLength <= |name| <= MaxNameLength
      && (forall i :: 0 <= i < |name| - 1 ==> InNameClass(name[i]))
      && (InNameClass(name[|name| - 1]) || name[|name| - 1] == '\n')
      && LowerAscii(name) != ReservedName
  {
    if MinNameLength <= |name| && (forall i :: 0 <= i < |name| - 1 ==> InNameClass(name[i]))
       && InNameClass(name[|name| - 1])
    {
      assert forall i :: 0 <= i < |name| ==> InNameClass(name[i]);
    }
  }

  /** "anonymous" in any mix of letter cases is turned down as reserved. */
  lemma ReservedInAnyCase(name: string)
    requires LowerAscii(name) == ReservedName
    ensures ValidateName(name) == Some(Reserved)
  {
    forall i | 0 <= i < |name|
      ensures InNameClass(name[i])
    {
      assert LowerChar(name[i]) == ReservedName[i];
    }
  }

  /** A character outside the class anywhere but as a final newline makes the
      name fail the first check. */
  lemma ForeignCharacterRejected(name: string, i: int)
    requires 0 <= i < |name| && !InNameClass(name[i])
    requires i < |name| - 1 || name[i] != '\n'
    ensures ValidateName(name) == Some(CharactersNotAllowed)
  {
  }

  /** Because `$` also matches before a final newline, appending a newline
      to "Anonymous" gets it past both the character and the reserved-name
      checks. */
  lemma ReservedNameWithNewlineAccepted()
    ensures ValidateName("Anonymous\n") == None
  {
    var name := "Anonymous\n";
    assert NameMatches(name) by {
      assert forall i :: 0 <= i < |name| - 1 ==> InNameClass(name[i]);
    }
    assert |LowerAscii(name)| != |ReservedName|;
  }

  // ------------------------------------------------------ photo file paths

  const DefaultTempDir: string := "/tmp"

  /** `posixpath.join(a, b)`: b when it is absolute, otherwise b appended to a
      with a '/' in between unless a is empty or already ends in '/'. */
  function PosixJoin(a: string, b: string): (r: string)
    ensures EndsWith(r, b)
    ensures StartsWith(b, "/") ==> r == b
    ensures !StartsWith(b, "/") ==> StartsWith(r, a)
    ensures !StartsWith(b, "/") && (a == [] || EndsWith(a, "/")) ==> |r| == |a| + |b|
    ensures !StartsWith(b, "/") && a != [] && !EndsWith(a, "/") ==> |r| == |a| + 1 + |b| && r[|a|] == '/'
  {
    if StartsWith(b, "/") then b
    else if a == [] || EndsWith(a, "/") then a + b
    else a + "/" + b
  }

  /** `construct_path`: `TEMPDIR` (default /tmp), then "graff", then the
      first two and the next two characters of the fsid as directories, then
      the rest of the fsid as the file name. */
  function ConstructPath(tempDir: Option<string>, fsid: string): (r: string)
    ensures EndsWith(r, Slice(fsid, 4, |fsid|))
  {
    var base := if tempDir.Some? then tempDir.value else DefaultTempDir;
    var dir := PosixJoin(PosixJoin(PosixJoin(base, "graff"), Slice(fsid, 0, 2)), Slice(fsid, 2, 4));
    PosixJoin(dir, Slice(fsid, 4, |fsid|))
  }

  /** The three shards of an fsid put back together give the fsid, whatever its length. */
  lemma ShardsConcatenate(fsid: string)
    ensures Slice(fsid, 0, 2) + Slice(fsid, 2, 4) + Slice(fsid, 4, |fsid|) == fsid
  {
    if |fsid| >= 4 {
      assert fsid == fsid[..2] + fsid[2..4] + fsid[4..];
    } else if |fsid| >= 2 {
      assert fsid == fsid[..2] + fsid[2..];
    }
  }

  /** The separator `posixpath.join` puts after a directory: none when it is
      empty or already ends in '/', one '/' otherwise. */
  function Separator(dir: string): string
  {
    if dir == [] || EndsWith(dir, "/") then "" else "/"
  }

  /** For an fsid of at least 4 characters without '/', the path is laid out
      as dir/graff/fsid[:2]/fsid[2:4]/fsid[4:], whatever the directory. */
  lemma ConstructPathLayout(tempDir: Option<string>, fsid: string)
    requires |fsid| >= 4 && forall i :: 0 <= i < |fsid| ==> fsid[i] != '/'
    ensures var base := if tempDir.Some? then tempDir.value else DefaultTempDir;
      ConstructPath(tempDir, fsid) == base + Separator(base) + "graff/" + fsid[..2] + "/" + fsid[2..4] + "/" + fsid[4..]
  {
    var base := if tempDir.Some? then tempDir.value else DefaultTempDir;
    assert Slice(fsid, 0, 2) == fsid[..2] && Slice(fsid, 2, 4) == fsid[2..4] && Slice(fsid, 4, |fsid|) == fsid[4..];
    ShardDirLayout(base, fsid);
    var dir := base + Separator(base) + "graff/" + fsid[..2] + "/" + fsid[2..4];
    assert dir[|dir| - 1] == fsid[3];
    JoinSegment(dir, fsid[4..]);
  }

  /** The directory part of the layout: dir/graff/fsid[:2]/fsid[2:4]. */
  lemma ShardDirLayout(base: string, fsid: string)
    requires |fsid| >= 4 && forall i :: 0 <= i < |fsid| ==> fsid[i] != '/'
    ensures PosixJoin(PosixJoin(PosixJoin(base, "graff"), fsid[..2]), fsid[2..4])
         == base + Separator(base) + "graff/" + fsid[..2] + "/" + fsid[2..4]
  {
    var d1 := base + Separator(base) + "graff";
    JoinGraff(base);
    JoinSegment(d1, fsid[..2]);
    var d2 := d1 + "/" + fsid[..2];
    assert d2 == base + Separator(base) + "graff/" + fsid[..2];
    JoinSegment(d2, fsid[2..4]);
  }

  /** The first join: the directory, its separator and "graff". */
  lemma JoinGraff(base: string)
    ensures PosixJoin(base, "graff") == base + Separator(base) + "graff"
    ensures var d := base + Separator(base) + "graff"; d[|d| - 1] == 'f'
  {
    assert "graff"[..1][0] == 'g';
  }

  /** Joining a relative segment without '/' to a directory that does not end
      in '/' puts exactly one '/' between them. */
  lemma JoinSegment(a: string, b: string)
    requires a != [] && a[|a| - 1] != '/'
    requires forall i :: 0 <= i < |b| ==> b[i] != '/'
    ensures PosixJoin(a, b) == a + "/" + b
    ensures b != [] ==> (a + "/" + b)[|a + "/" + b| - 1] != '/'
  {
    assert !StartsWith(b, "/") by {
      if b != [] {
        assert b[..1][0] == b[0];
      }
    }
    assert !EndsWith(a, "/") by {
      assert a[|a| - 1..][0] == a[|a| - 1];
    }
  }
}
