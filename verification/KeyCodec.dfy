/** The NATS key codec: slash-separated keys as dot-separated base58 segments. The base58 encoder
    and decoder are parameters. */
module KeyCodec {
  import opened Options
  import opened Text

  const NO_ROOT_PREFIX := "meta"

  /** What the codec needs of base58: it decodes what it encoded, and never writes a dot. */
  ghost predicate Base58(enc: string -> string, dec: string -> Option<string>) {
    forall s {:trigger enc(s)} :: dec(enc(s)) == Some(s) && '.' !in enc(s)
  }

  /** Puts one more character in front of a split text. */
  function Prepend(x: char, parts: seq<string>, c: char): (r: seq<string>)
    requires parts != []
    ensures r != []
  {
    if x == c then [""] + parts else [[x] + parts[0]] + parts[1..]
  }

  /** `strings.Split` at one character. */
  function Split(s: string, c: char): (parts: seq<string>)
    ensures parts != []
  {
    if s == "" then [""] else Prepend(s[0], Split(s[1..], c), c)
  }

  /** No part holds the separator. */
  ghost predicate Plain(parts: seq<string>, c: char) {
    forall i | 0 <= i < |parts| :: c !in parts[i]
  }

  lemma {:induction false} JoinSplit(s: string, c: char)
    ensures Join(Split(s, c), [c]) == s && Plain(Split(s, c), c)
  {
    if s != "" {
      JoinSplit(s[1..], c);
      var rest := Split(s[1..], c);
      assert s == [s[0]] + s[1..];
      if s[0] == c {
        assert ([""] + rest)[1..] == rest;
      } else if |rest| > 1 {
        assert ([[s[0]] + rest[0]] + rest[1..])[1..] == rest[1..];
        assert [s[0]] + (rest[0] + [c] + Join(rest[1..], [c])) == ([s[0]] + rest[0]) + [c] + Join(rest[1..], [c]);
      }
    }
  }

  lemma {:induction false} SplitPart(p: string, c: char)
    requires c !in p
    ensures Split(p, c) == [p]
  {
    if p != "" {
      SplitPart(p[1..], c);
      assert p == [p[0]] + p[1..];
    }
  }

  lemma PrependAppend(x: char, p: seq<string>, q: seq<string>, c: char)
    requires p != []
    ensures Prepend(x, p + q, c) == Prepend(x, p, c) + q
  {
    assert [""] + (p + q) == ([""] + p) + q;
    assert (p + q)[1..] == p[1..] + q;
  }

  /** Splitting at a separator splits both sides. */
  lemma {:induction false} SplitAt(a: string, b: string, c: char)
    ensures Split(a + [c] + b, c) == Split(a, c) + Split(b, c)
  {
    var s := a + [c] + b;
    if a == "" {
      assert s[1..] == b;
    } else {
      SplitAt(a[1..], b, c);
      assert s[1..] == a[1..] + [c] + b;
      PrependAppend(a[0], Split(a[1..], c), Split(b, c), c);
    }
  }

  lemma {:induction false} SplitJoin(parts: seq<string>, c: char)
    requires parts != [] && Plain(parts, c)
    ensures Split(Join(parts, [c]), c) == parts
  {
    SplitPart(parts[0], c);
    if |parts| == 1 {
      assert parts == [parts[0]];
    } else {
      SplitJoin(parts[1..], c);
      SplitAt(parts[0], Join(parts[1..], [c]), c);
      assert parts == [parts[0]] + parts[1..];
    }
  }

  predicate Rooted(key: string) { HasPrefix(key, "/") }

  /** The segments of a key, its leading slash set aside. */
  function Segments(key: string): (segments: seq<string>)
    ensures segments != []
  {
    Split(if Rooted(key) then key[1..] else key, '/')
  }

  function EncodeSegment(segment: string, enc: string -> string): string {
    enc(if segment == "" then "/" else segment)
  }

  ghost function EncodeSegments(segments: seq<string>, enc: string -> string): seq<string> {
    seq(|segments|, i requires 0 <= i < |segments| => EncodeSegment(segments[i], enc))
  }

  /** The parts of a key's encoding. */
  ghost function Parts(key: string, enc: string -> string): (parts: seq<string>)
    ensures parts != []
  {
    var coded := EncodeSegments(Segments(key), enc);
    if Rooted(key) then coded else [NO_ROOT_PREFIX] + coded
  }

  ghost function Encoded(key: string, enc: string -> string): Option<string> {
    if key == "" || key == "/" then None else Some(Join(Parts(key, enc), "."))
  }

  method Encode(key: string, enc: string -> string) returns (r: Option<string>)
    ensures r == Encoded(key, enc)
  {
    if key == "" || key == "/" {
      return None;
    }
    var hasRootPrefix := HasPrefix(key, "/");
    var trimmed := if hasRootPrefix then key[1..] else key;
    var parts := [];
    if !hasRootPrefix {
      parts := [NO_ROOT_PREFIX];
    }
    var segments := Split(trimmed, '/');
    for i := 0 to |segments|
      invariant parts == (if hasRootPrefix then [] else [NO_ROOT_PREFIX]) + EncodeSegments(segments[..i], enc)
    {
      var part := segments[i];
      if part == "" {
        part := "/";
      }
      parts := parts + [enc(part)];
      assert EncodeSegments(segments[..i + 1], enc) == EncodeSegments(segments[..i], enc) + [enc(part)];
    }
    assert segments[..|segments|] == segments;
    assert parts == Parts(key, enc);
    r := Some(Join(parts, "."));
  }

  /** The segments that dot-separated parts stand for, or None if one is not base58. */
  ghost function DecodeParts(parts: seq<string>, dec: string -> Option<string>): Option<seq<string>> {
    if parts == [] then Some([])
    else
      var n := |parts| - 1;
      match DecodeParts(parts[..n], dec)
      case None => None
      case Some(segments) =>
        if parts[n] == NO_ROOT_PREFIX then Some(segments)
        else match dec(parts[n])
          case None => None
          case Some(p) => Some(segments + [if p == "/" then "" else p])
  }

  ghost function Decoded(key: string, dec: string -> Option<string>): Option<string> {
    match DecodeParts(Split(key, '.'), dec)
    case None => None
    case Some(segments) =>
      if segments == [] then None
      else Some((if HasPrefix(key, NO_ROOT_PREFIX) then "" else "/") + Join(segments, "/"))
  }

  lemma {:induction false} DecodeFails(parts: seq<string>, n: nat, dec: string -> Option<string>)
    requires n <= |parts| && DecodeParts(parts[..n], dec) == None
    ensures DecodeParts(parts, dec) == None
    decreases |parts| - n
  {
    if n < |parts| {
      assert parts[..n + 1][..n] == parts[..n];
      DecodeFails(parts, n + 1, dec);
    } else {
      assert parts[..n] == parts;
    }
  }

  method Decode(key: string, dec: string -> Option<string>) returns (r: Option<string>)
    ensures r == Decoded(key, dec)
  {
    var hasRootPrefix := !HasPrefix(key, NO_ROOT_PREFIX);
    var parts, segments := Split(key, '.'), [];
    for i := 0 to |parts|
      invariant DecodeParts(parts[..i], dec) == Some(segments)
    {
      assert parts[..i + 1][..i] == parts[..i];
      if parts[i] == NO_ROOT_PREFIX {
        continue;
      }
      match dec(parts[i]) {
        case None =>
          DecodeFails(parts, i + 1, dec);
          return None;
        case Some(part) =>
          segments := segments + [if part == "/" then "" else part];
      }
    }
    assert parts[..|parts|] == parts;
    if segments == [] {
      return None;
    }
    r := Some((if hasRootPrefix then "/" else "") + Join(segments, "/"));
  }

  /** No segment of the key encodes to the marker of unrooted keys, and a rooted key's encoding does
      not begin like it. */
  ghost predicate Clean(key: string, enc: string -> string) {
    var segments := Segments(key);
    && (forall i | 0 <= i < |segments| :: EncodeSegment(segments[i], enc) != NO_ROOT_PREFIX)
    && (Rooted(key) ==> !HasPrefix(EncodeSegment(segments[0], enc), NO_ROOT_PREFIX))
  }

  /** The segments that survive decoding. */
  ghost function Surviving(segments: seq<string>, enc: string -> string): seq<string> {
    if segments == [] then []
    else
      var n := |segments| - 1;
      if EncodeSegment(segments[n], enc) == NO_ROOT_PREFIX then Surviving(segments[..n], enc)
      else Surviving(segments[..n], enc) + [segments[n]]
  }

  lemma {:induction false} DecodeSegments(segments: seq<string>, enc: string -> string, dec: string -> Option<string>)
    requires Base58(enc, dec) && Plain(segments, '/')
    ensures DecodeParts(EncodeSegments(segments, enc), dec) == Some(Surviving(segments, enc))
  {
    if segments != [] {
      var n := |segments| - 1;
      DecodeSegments(segments[..n], enc, dec);
      assert EncodeSegments(segments, enc)[..n] == EncodeSegments(segments[..n], enc);
      assert segments[n] != "/" by { assert "/"[0] == '/'; }
      assert dec(EncodeSegment(segments[n], enc)) == Some(if segments[n] == "" then "/" else segments[n]);
    }
  }

  lemma {:induction false} DecodeMarked(parts: seq<string>, dec: string -> Option<string>)
    ensures DecodeParts([NO_ROOT_PREFIX] + parts, dec) == DecodeParts(parts, dec)
  {
    var marked := [NO_ROOT_PREFIX] + parts;
    if parts == [] {
      assert marked[..0] == [];
    } else {
      DecodeMarked(parts[..|parts| - 1], dec);
      assert marked[..|marked| - 1] == [NO_ROOT_PREFIX] + parts[..|parts| - 1];
    }
  }

  /** What an encoding decodes to. */
  lemma DecodedParts(key: string, enc: string -> string, dec: string -> Option<string>)
    requires Base58(enc, dec)
    ensures var coded := Join(Parts(key, enc), ".");
            && Split(coded, '.') == Parts(key, enc)
            && DecodeParts(Split(coded, '.'), dec) == Some(Surviving(Segments(key), enc))
            && (HasPrefix(coded, NO_ROOT_PREFIX) <==> HasPrefix(Parts(key, enc)[0], NO_ROOT_PREFIX))
  {
    var parts, segments := Parts(key, enc), Segments(key);
    JoinSplit(if Rooted(key) then key[1..] else key, '/');
    assert Plain(parts, '.');
    SplitJoin(parts, '.');
    DecodeSegments(segments, enc, dec);
    DecodeMarked(EncodeSegments(segments, enc), dec);
    PrefixOfFirst(parts);
  }

  lemma PrefixOfFirst(parts: seq<string>)
    requires parts != [] && Plain(parts, '.')
    ensures HasPrefix(Join(parts, "."), NO_ROOT_PREFIX) <==> HasPrefix(parts[0], NO_ROOT_PREFIX)
  {
    var s, p := Join(parts, "."), parts[0];
    assert s[..|p|] == p;
    assert '.' !in NO_ROOT_PREFIX;
    assert |p| < |s| ==> s[|p|] == '.';
  }

  lemma {:induction false} AllSurvive(segments: seq<string>, enc: string -> string)
    ensures |Surviving(segments, enc)| <= |segments|
    ensures (forall i | 0 <= i < |segments| :: EncodeSegment(segments[i], enc) != NO_ROOT_PREFIX) ==>
              Surviving(segments, enc) == segments
    ensures Surviving(segments, enc) == segments ==>
              forall i | 0 <= i < |segments| :: EncodeSegment(segments[i], enc) != NO_ROOT_PREFIX
  {
    if segments != [] {
      var n := |segments| - 1;
      AllSurvive(segments[..n], enc);
      assert segments == segments[..n] + [segments[n]];
    }
  }

  ghost function Weight(parts: seq<string>): nat {
    if parts == [] then 0 else Weight(parts[..|parts| - 1]) + |parts[|parts| - 1]| + 1
  }

  lemma {:induction false} JoinLength(parts: seq<string>, c: char)
    requires parts != []
    ensures |Join(parts, [c])| + 1 == Weight(parts)
  {
    var n := |parts| - 1;
    if n > 0 {
      JoinLength(parts[..n], c);
      JoinAppend(parts[..n], [parts[n]], [c]);
      assert parts == parts[..n] + [parts[n]];
    }
  }

  /** Dropping segments shortens what they join to. */
  lemma {:induction false} SurvivingShorter(segments: seq<string>, enc: string -> string)
    ensures Weight(Surviving(segments, enc)) <= Weight(segments)
    ensures Surviving(segments, enc) != segments ==> Weight(Surviving(segments, enc)) < Weight(segments)
  {
    if segments != [] {
      var n := |segments| - 1;
      SurvivingShorter(segments[..n], enc);
      assert segments == segments[..n] + [segments[n]];
      var kept := Surviving(segments[..n], enc);
      assert (kept + [segments[n]])[..|kept|] == kept;
    }
  }

  /** What comes back equals the key only if nothing was dropped and the leading slash was kept. */
  lemma BackIffClean(key: string, enc: string -> string, kept: seq<string>, root: string)
    requires kept == Surviving(Segments(key), enc) && kept != []
    requires root == if HasPrefix(Parts(key, enc)[0], NO_ROOT_PREFIX) then "" else "/"
    ensures root + Join(kept, "/") == key <==> Clean(key, enc)
  {
    var segments := Segments(key);
    var body := if Rooted(key) then key[1..] else key;
    JoinSplit(body, '/');
    SurvivingShorter(segments, enc);
    JoinLength(kept, '/');
    JoinLength(segments, '/');
    AllSurvive(segments, enc);
    if Rooted(key) {
      assert key == "/" + body;
      assert Parts(key, enc)[0] == EncodeSegment(segments[0], enc);
    } else {
      assert root == "";
    }
  }

  /** A key comes back from its encoding exactly if it is clean. The two keys "" and "/" have no encoding. */
  lemma RoundTrip(key: string, enc: string -> string, dec: string -> Option<string>)
    requires Base58(enc, dec)
    ensures Encoded(key, enc) == None <==> key == "" || key == "/"
    ensures Encoded(key, enc).Some? ==> (Decoded(Encoded(key, enc).value, dec) == Some(key) <==> Clean(key, enc))
  {
    if key != "" && key != "/" {
      var kept := Surviving(Segments(key), enc);
      DecodedParts(key, enc, dec);
      AllSurvive(Segments(key), enc);
      if kept != [] {
        BackIffClean(key, enc, kept, if HasPrefix(Parts(key, enc)[0], NO_ROOT_PREFIX) then "" else "/");
      }
    }
  }

  /** Clean keys never share an encoding. */
  lemma NoCollision(a: string, b: string, enc: string -> string, dec: string -> Option<string>)
    requires Base58(enc, dec) && Clean(a, enc) && Clean(b, enc)
    requires Encoded(a, enc).Some? && Encoded(a, enc) == Encoded(b, enc)
    ensures a == b
  {
    RoundTrip(a, enc, dec);
    RoundTrip(b, enc, dec);
  }

  /** A rooted key whose first segment encodes to the marker does share one, with the unrooted rest of it. */
  lemma Collision(x: string, rest: string, enc: string -> string)
    requires '/' !in x && EncodeSegment(x, enc) == NO_ROOT_PREFIX && rest != "" && !Rooted(rest)
    ensures Encoded("/" + x + "/" + rest, enc) == Encoded(rest, enc)
  {
    var top := "/" + x;
    assert Segments(top) == [x] by {
      assert top[1..] == x && Rooted(top);
      SplitPart(x, '/');
    }
    PartsExtend(top, rest, enc);
    assert EncodeSegments([x], enc) == [NO_ROOT_PREFIX];
  }

  lemma SegmentsBelow(prefix: string, rest: string)
    requires prefix != ""
    ensures Rooted(prefix + "/" + rest) == Rooted(prefix)
    ensures Segments(prefix + "/" + rest) == Segments(prefix) + Split(rest, '/')
  {
    var key := prefix + "/" + rest;
    assert key[0] == prefix[0] && Rooted(key) == (key[0] == '/') && Rooted(prefix) == (prefix[0] == '/');
    if Rooted(prefix) {
      assert key[1..] == prefix[1..] + "/" + rest;
      SplitAt(prefix[1..], rest, '/');
    } else {
      SplitAt(prefix, rest, '/');
    }
  }

  lemma PartsExtend(prefix: string, rest: string, enc: string -> string)
    requires prefix != ""
    ensures Parts(prefix + "/" + rest, enc) == Parts(prefix, enc) + EncodeSegments(Split(rest, '/'), enc)
  {
    SegmentsBelow(prefix, rest);
    EncodeAppend(Segments(prefix), Split(rest, '/'), enc);
  }

  lemma EncodeAppend(a: seq<string>, b: seq<string>, enc: string -> string)
    ensures EncodeSegments(a + b, enc) == EncodeSegments(a, enc) + EncodeSegments(b, enc)
  {
  }

  lemma SameSegments(a: seq<string>, b: seq<string>, enc: string -> string, dec: string -> Option<string>)
    requires Base58(enc, dec) && Plain(a, '/') && Plain(b, '/') && EncodeSegments(a, enc) <= EncodeSegments(b, enc)
    ensures a <= b
  {
    forall i | 0 <= i < |a| ensures a[i] == b[i] {
      assert EncodeSegments(a, enc)[i] == EncodeSegments(b, enc)[i];
      SameSegment(a[i], b[i], enc, dec);
    }
  }

  lemma SameSegment(x: string, y: string, enc: string -> string, dec: string -> Option<string>)
    requires Base58(enc, dec) && '/' !in x && '/' !in y && EncodeSegment(x, enc) == EncodeSegment(y, enc)
    ensures x == y
  {
    assert x != "/" && y != "/" by { assert "/"[0] == '/'; }
    assert dec(EncodeSegment(x, enc)) == Some(if x == "" then "/" else x);
    assert dec(EncodeSegment(y, enc)) == Some(if y == "" then "/" else y);
  }

  /** A rooted prefix whose first segment encodes to the marker and whose other segments could be those
      of a clean unrooted key. */
  ghost predicate Misread(prefix: string, enc: string -> string) {
    var segments := Segments(prefix);
    && Rooted(prefix) && EncodeSegment(segments[0], enc) == NO_ROOT_PREFIX
    && (|segments| > 1 ==> segments[1] != "")
    && forall i | 1 <= i < |segments| :: EncodeSegment(segments[i], enc) != NO_ROOT_PREFIX
  }

  lemma PlainSegments(key: string)
    ensures Plain(Segments(key), '/')
    ensures !Rooted(key) && key != "" ==> Segments(key)[0] != ""
  {
    JoinSplit(if Rooted(key) then key[1..] else key, '/');
  }

  /** A rooted prefix whose encoding an unrooted clean key's extends is misread. */
  lemma UnrootedBelow(prefix: string, key: string, enc: string -> string, dec: string -> Option<string>)
    requires Base58(enc, dec) && Clean(key, enc) && key != "" && Parts(prefix, enc) < Parts(key, enc)
    requires Rooted(prefix) && !Rooted(key)
    ensures Misread(prefix, enc)
  {
    var a, b := Segments(prefix), Segments(key);
    PlainSegments(prefix);
    PlainSegments(key);
    assert EncodeSegment(a[0], enc) == Parts(prefix, enc)[0] == Parts(key, enc)[0];
    forall i | 1 <= i < |a| ensures a[i] == b[i - 1] {
      assert EncodeSegment(a[i], enc) == Parts(prefix, enc)[i] == Parts(key, enc)[i];
      SameSegment(a[i], b[i - 1], enc, dec);
    }
  }

  /** The unrooted key of some segments. */
  lemma UnrootedKey(segments: seq<string>) returns (key: string)
    requires segments != [] && Plain(segments, '/') && segments[0] != ""
    ensures key != "" && !Rooted(key) && Segments(key) == segments
  {
    key := Join(segments, "/");
    SplitJoin(segments, '/');
    assert key[0] == segments[0][0] && segments[0][0] in segments[0];
  }

  lemma OtherSegment(enc: string -> string, dec: string -> Option<string>) returns (segment: string)
    requires Base58(enc, dec)
    ensures '/' !in segment && segment != "" && EncodeSegment(segment, enc) != NO_ROOT_PREFIX
  {
    assert dec(enc("a")) == Some("a") && dec(enc("b")) == Some("b");
    segment := if enc("a") != NO_ROOT_PREFIX then "a" else "b";
  }

  /** And every misread prefix has such a key. */
  lemma MisreadKey(prefix: string, enc: string -> string, dec: string -> Option<string>) returns (key: string)
    requires Base58(enc, dec) && Misread(prefix, enc)
    ensures key != "" && !Rooted(key) && Clean(key, enc) && Parts(prefix, enc) < Parts(key, enc)
  {
    var a := Segments(prefix);
    var last := OtherSegment(enc, dec);
    PlainSegments(prefix);
    key := UnrootedKey(a[1..] + [last]);
    EncodeAppend(a[1..], [last], enc);
    assert a == [a[0]] + a[1..];
    EncodeAppend([a[0]], a[1..], enc);
    assert EncodeSegments([a[0]], enc) == [NO_ROOT_PREFIX];
    assert Parts(key, enc) == Parts(prefix, enc) + EncodeSegments([last], enc);
  }

  lemma SegmentsOfBelow(prefix: string, key: string, enc: string -> string, dec: string -> Option<string>)
    requires Base58(enc, dec) && !Misread(prefix, enc) && Clean(key, enc) && key != ""
    requires Parts(prefix, enc) < Parts(key, enc)
    ensures Rooted(prefix) == Rooted(key) && Segments(prefix) < Segments(key)
  {
    var a, b := Segments(prefix), Segments(key);
    PlainSegments(prefix);
    PlainSegments(key);
    assert Parts(prefix, enc)[0] == Parts(key, enc)[0];
    if !Rooted(key) {
      if Rooted(prefix) { UnrootedBelow(prefix, key, enc, dec); }
      assert EncodeSegments(a, enc) == Parts(prefix, enc)[1..] && EncodeSegments(b, enc) == Parts(key, enc)[1..];
    }
    SameSegments(a, b, enc, dec);
  }

  lemma SegmentsTell(prefix: string, key: string)
    requires Rooted(prefix) == Rooted(key) && Segments(prefix) < Segments(key)
    ensures HasPrefix(key, prefix + "/")
  {
    var a, b := Segments(prefix), Segments(key);
    var top, body := if Rooted(prefix) then prefix[1..] else prefix, if Rooted(key) then key[1..] else key;
    JoinSplit(top, '/');
    JoinSplit(body, '/');
    assert b == a + b[|a|..];
    JoinAppend(a, b[|a|..], "/");
    if Rooted(key) {
      assert key == "/" + body && prefix == "/" + top;
    }
  }

  /** The parts of a key's encoding extend those of a prefix exactly if the key lies below it. */
  lemma PartsBelow(prefix: string, key: string, enc: string -> string, dec: string -> Option<string>)
    requires Base58(enc, dec) && !Misread(prefix, enc) && Clean(key, enc) && prefix != "" && key != ""
    ensures Parts(prefix, enc) < Parts(key, enc) <==> HasPrefix(key, prefix + "/")
  {
    if Parts(prefix, enc) < Parts(key, enc) {
      SegmentsOfBelow(prefix, key, enc, dec);
      SegmentsTell(prefix, key);
    }
    if HasPrefix(key, prefix + "/") {
      PartsOfBelow(prefix, key, enc);
    }
  }

  lemma PartsOfBelow(prefix: string, key: string, enc: string -> string)
    requires prefix != "" && HasPrefix(key, prefix + "/")
    ensures Parts(prefix, enc) < Parts(key, enc)
  {
    var rest := key[|prefix| + 1..];
    assert key == prefix + "/" + rest;
    PartsExtend(prefix, rest, enc);
  }

  lemma CodedSplit(key: string, enc: string -> string, dec: string -> Option<string>)
    requires Base58(enc, dec)
    ensures Split(Join(Parts(key, enc), "."), '.') == Parts(key, enc)
  {
    DecodedParts(key, enc, dec);
  }

  // ----- ranges -----

  /** A NATS subject matches a dot-separated name part by part, a final `>` any one or more further parts. */
  predicate SubjectMatches(subject: string, name: string) {
    var tokens, parts := Split(subject, '.'), Split(name, '.');
    var n := |tokens| - 1;
    if tokens[n] == ">" then n < |parts| && parts[..n] == tokens[..n] else parts == tokens
  }

  function TrimSlash(s: string): string {
    if |s| > 0 && s[|s| - 1] == '/' then s[..|s| - 1] else s
  }

  /** The keys a range request for a prefix is served from: all of them for the root, the unrooted
      ones for their marker, otherwise those below the prefix. */
  predicate InRange(prefix: string, key: string) {
    if prefix == "/" then true
    else if prefix == NO_ROOT_PREFIX then !Rooted(key)
    else HasPrefix(key, TrimSlash(prefix) + "/")
  }

  lemma MarkerMatches(key: string, enc: string -> string, dec: string -> Option<string>)
    requires Base58(enc, dec) && Clean(key, enc)
    ensures SubjectMatches(NO_ROOT_PREFIX + ".>", Join(Parts(key, enc), ".")) <==> !Rooted(key)
  {
    CodedSplit(key, enc, dec);
    SplitAt(NO_ROOT_PREFIX, ">", '.');
    SplitPart(NO_ROOT_PREFIX, '.');
    SplitPart(">", '.');
    assert NO_ROOT_PREFIX + ".>" == NO_ROOT_PREFIX + "." + ">";
    TokensMatch(NO_ROOT_PREFIX + ".>", Join(Parts(key, enc), "."), [NO_ROOT_PREFIX], Parts(key, enc));
    MarkerFirst(key, enc);
  }

  lemma MarkerFirst(key: string, enc: string -> string)
    requires Clean(key, enc)
    ensures [NO_ROOT_PREFIX] < Parts(key, enc) <==> !Rooted(key)
  {
    var parts := Parts(key, enc);
    if Rooted(key) {
      assert parts[0] == EncodeSegment(Segments(key)[0], enc);
      assert parts[0] != NO_ROOT_PREFIX;
    } else {
      assert parts == [NO_ROOT_PREFIX] + EncodeSegments(Segments(key), enc);
    }
  }

  lemma RootMatches(name: string)
    ensures SubjectMatches(">", name)
  {
    SplitPart(">", '.');
  }

  lemma PrefixMatches(prefix: string, key: string, enc: string -> string, dec: string -> Option<string>)
    requires Base58(enc, dec)
    ensures SubjectMatches(Join(Parts(prefix, enc), ".") + ".>", Join(Parts(key, enc), ".")) <==>
              Parts(prefix, enc) < Parts(key, enc)
  {
    var top := Join(Parts(prefix, enc), ".");
    CodedSplit(key, enc, dec);
    CodedSplit(prefix, enc, dec);
    SplitAt(top, ">", '.');
    SplitPart(">", '.');
    assert top + ".>" == top + "." + ">";
    TokensMatch(top + ".>", Join(Parts(key, enc), "."), Parts(prefix, enc), Parts(key, enc));
  }

  lemma TokensMatch(subject: string, name: string, tokens: seq<string>, parts: seq<string>)
    requires Split(subject, '.') == tokens + [">"] && Split(name, '.') == parts
    ensures SubjectMatches(subject, name) <==> tokens < parts
  {
    assert (tokens + [">"])[..|tokens|] == tokens;
    assert tokens < parts ==> parts[..|tokens|] == tokens;
  }

  /** A subject matches the encodings of exactly the clean keys in the range of a prefix. */
  ghost predicate Serves(subject: string, prefix: string, enc: string -> string) {
    forall key | Encoded(key, enc).Some? && Clean(key, enc) ::
      SubjectMatches(subject, Encoded(key, enc).value) <==> InRange(prefix, key)
  }

  lemma SpecialServes(enc: string -> string, dec: string -> Option<string>)
    requires Base58(enc, dec)
    ensures Serves(">", "/", enc) && Serves(NO_ROOT_PREFIX + ".>", NO_ROOT_PREFIX, enc)
  {
    forall key | Encoded(key, enc).Some? && Clean(key, enc)
      ensures SubjectMatches(">", Encoded(key, enc).value)
      ensures SubjectMatches(NO_ROOT_PREFIX + ".>", Encoded(key, enc).value) <==> !Rooted(key)
    {
      RootMatches(Encoded(key, enc).value);
      MarkerMatches(key, enc, dec);
    }
  }

  /** The subject of a prefix matches the encoding of a key. */
  ghost predicate Hits(prefix: string, key: string, enc: string -> string) {
    SubjectMatches(Join(Parts(prefix, enc), ".") + ".>", Join(Parts(key, enc), "."))
  }

  lemma HitsBelow(prefix: string, key: string, enc: string -> string, dec: string -> Option<string>)
    requires Base58(enc, dec) && !Misread(prefix, enc) && Clean(key, enc) && prefix != "" && key != ""
    ensures Hits(prefix, key, enc) <==> HasPrefix(key, prefix + "/")
  {
    PrefixMatches(prefix, key, enc, dec);
    PartsBelow(prefix, key, enc, dec);
  }

  lemma HitsElsewhere(prefix: string, enc: string -> string, dec: string -> Option<string>) returns (key: string)
    requires Base58(enc, dec) && Misread(prefix, enc)
    ensures Encoded(key, enc).Some? && Clean(key, enc) && Hits(prefix, key, enc) && !HasPrefix(key, prefix + "/")
  {
    key := MisreadKey(prefix, enc, dec);
    PrefixMatches(prefix, key, enc, dec);
    assert (prefix + "/")[0] == '/' && key[0] != '/';
  }

  lemma PrefixServes(prefix: string, enc: string -> string, dec: string -> Option<string>)
    requires Base58(enc, dec) && prefix != "/" && prefix != NO_ROOT_PREFIX && Encoded(TrimSlash(prefix), enc).Some?
    ensures Serves(Encoded(TrimSlash(prefix), enc).value + ".>", prefix, enc) <==> !Misread(TrimSlash(prefix), enc)
  {
    var trimmed := TrimSlash(prefix);
    if Misread(trimmed, enc) {
      var key := HitsElsewhere(trimmed, enc, dec);
    } else {
      forall key | Encoded(key, enc).Some? && Clean(key, enc)
        ensures Hits(trimmed, key, enc) <==> InRange(prefix, key)
      {
        HitsBelow(trimmed, key, enc, dec);
      }
    }
  }

  /** The subject of a range serves it if and only if the prefix is not misread. There is no subject for
      the two prefixes that leave nothing before their last slash. */
  method EncodeRange(prefix: string, enc: string -> string, ghost dec: string -> Option<string>)
    returns (r: Option<string>)
    requires Base58(enc, dec)
    ensures r == None <==> prefix == "" || prefix == "//"
    ensures r.Some? ==>
              (Serves(r.value, prefix, enc) <==>
                  prefix == "/" || prefix == NO_ROOT_PREFIX || !Misread(TrimSlash(prefix), enc))
  {
    SpecialServes(enc, dec);
    if prefix == "/" {
      return Some(">");
    }
    if prefix == NO_ROOT_PREFIX {
      return Some(NO_ROOT_PREFIX + ".>");
    }
    var trimmed := TrimSlash(prefix);
    assert trimmed == "" || trimmed == "/" <==> prefix == "" || prefix == "//";
    r := Encode(trimmed, enc);
    if r.Some? {
      PrefixServes(prefix, enc, dec);
      r := Some(r.value + ".>");
    }
  }
}
