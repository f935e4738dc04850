/** Torrent identity and display names: id shape, magnet-link validation, the `dn=` display
    name parser and the `.torrent` file-name stem (torrent_manager.py, `add_magnet` and
    `add_torrent_file`). */
module Naming {
  import opened Results
  import opened Text

  const MagnetPrefix := "magnet:?"
  const NameKey := "dn="
  const NameEnd := '&'
  const TorrentExtension := ".torrent"
  const FallbackPrefix := "Torrent_"

  predicate IsHexDigit(c: char) {
    '0' <= c <= '9' || 'a' <= c <= 'f'
  }

  /** A torrent id: the first 12 characters of an md5 hex digest. */
  type Id = s: string | |s| == 12 && forall i :: 0 <= i < |s| ==> IsHexDigit(s[i])
    witness "000000000000"

  /** Only links with the literal `magnet:?` prefix are accepted. */
  predicate IsMagnet(link: string) {
    StartsWith(link, MagnetPrefix)
  }

  /** Only uploads whose name ends in `.torrent` are accepted. */
  predicate IsTorrentFileName(filename: string) {
    EndsWith(filename, TorrentExtension)
  }

  /** The display-name decoding: `+` and then `%20` become spaces. */
  function Decode(raw: string): (name: string)
    ensures '+' !in name
    ensures forall c :: c in name ==> c in raw || c == ' '
    ensures |name| <= |raw|
    ensures '+' !in raw && !Contains(raw, "%20") ==> name == raw
  {
    var plus := Replace(raw, "+", " ");
    CharReplacedEverywhere(raw, '+', ' ');
    assert '+' !in raw ==> !Contains(raw, "+") by {
      if '+' !in raw {
        forall i | 0 <= i <= |raw| && OccursAt(raw, "+", i) ensures false {
        }
      }
    }
    Replace(plus, "%20", " ")
  }

  /** The display name of a magnet link: the text that Python's
      `link.split("dn=")[1].split("&")[0]` yields, decoded, or `Torrent_<stamp>` when the link
      has no `dn=`; `stamp` is the `%Y%m%d_%H%M%S` rendering of the current time. */
  function DisplayName(link: string, stamp: string): (r: string)
    ensures !Contains(link, NameKey) ==> r == FallbackPrefix + stamp
    ensures Contains(link, NameKey) ==> '+' !in r && |r| <= |link| - |NameKey|
  {
    match Find(link, NameKey)
    case Some(i) => Decode(Before(Before(link[i + |NameKey|..], NameKey), [NameEnd]))
    case None => FallbackPrefix + stamp
  }

  /** Position `p` of `rest` ends the display-name value: end of text, `&`, or another `dn=`. */
  predicate Stop(rest: string, p: nat) {
    p == |rest| || (p < |rest| && rest[p] == NameEnd) || OccursAt(rest, NameKey, p)
  }

  /** `raw` is the value at the start of `rest`: it runs up to the first place that ends it. */
  predicate IsValue(rest: string, raw: string) {
    && raw <= rest
    && Stop(rest, |raw|)
    && (forall q :: 0 <= q < |raw| ==> !Stop(rest, q))
  }

  /** `raw` is the undecoded display-name value of `link`: the value after the first `dn=`,
      which starts at index `i`. */
  ghost predicate NameField(link: string, i: nat, raw: string) {
    && OccursAt(link, NameKey, i)
    && (forall j :: 0 <= j < i ==> !OccursAt(link, NameKey, j))
    && IsValue(link[i + |NameKey|..], raw)
  }

  /** A text has at most one value at its start. */
  lemma IsValueUnique(rest: string, raw1: string, raw2: string)
    requires IsValue(rest, raw1) && IsValue(rest, raw2)
    ensures raw1 == raw2
  {
    assert !(|raw1| < |raw2|) && !(|raw2| < |raw1|);
    assert raw1 == rest[..|raw1|] == raw2;
  }

  /** A link has at most one display-name field. */
  lemma NameFieldUnique(link: string, i1: nat, raw1: string, i2: nat, raw2: string)
    requires NameField(link, i1, raw1) && NameField(link, i2, raw2)
    ensures i1 == i2 && raw1 == raw2
  {
    assert !(i1 < i2) && !(i2 < i1);
    IsValueUnique(link[i1 + |NameKey|..], raw1, raw2);
  }

  /** Splitting at the first `dn=` and then at the first `&` isolates the value. */
  lemma SplitIsValue(rest: string)
    ensures IsValue(rest, Before(Before(rest, NameKey), [NameEnd]))
  {
    var a := Before(rest, NameKey);
    var raw := Before(a, [NameEnd]);
    assert Stop(rest, |raw|) by {
      if |raw| < |a| {
        assert OccursAt(a, [NameEnd], |raw|);
        assert a[|raw|..|raw| + 1][0] == rest[|raw|];
      }
    }
    forall q | 0 <= q < |raw| ensures !Stop(rest, q) {
      assert !OccursAt(a, [NameEnd], q);
      assert a[q..q + 1] == [rest[q]];
    }
  }

  /** `DisplayName` is the decoded display-name field when the link has one, and the
      timestamp fallback otherwise. */
  lemma DisplayNameSpec(link: string, stamp: string)
    ensures !Contains(link, NameKey) ==> DisplayName(link, stamp) == FallbackPrefix + stamp
    ensures Contains(link, NameKey) ==> exists i: nat, raw :: NameField(link, i, raw)
    ensures forall i: nat, raw :: NameField(link, i, raw) ==> DisplayName(link, stamp) == Decode(raw)
  {
    match Find(link, NameKey)
    case None =>
    case Some(i) =>
      var rest := link[i + |NameKey|..];
      var raw := Before(Before(rest, NameKey), [NameEnd]);
      SplitIsValue(rest);
      assert NameField(link, i, raw);
      forall i': nat, raw' | NameField(link, i', raw') ensures DisplayName(link, stamp) == Decode(raw') {
        NameFieldUnique(link, i, raw, i', raw');
      }
  }

  /** The display name contains neither `+` nor `&`. */
  lemma DisplayNameClean(link: string, stamp: string)
    requires Contains(link, NameKey)
    ensures '+' !in DisplayName(link, stamp)
    ensures NameEnd !in DisplayName(link, stamp)
  {
    var j := Find(link, NameKey).value;
    var raw := Before(Before(link[j + |NameKey|..], NameKey), [NameEnd]);
    assert NameEnd !in raw by {
      forall q | 0 <= q < |raw| ensures raw[q] != NameEnd {
        assert !OccursAt(raw, [NameEnd], q);
        assert raw[q..q + 1] == [raw[q]];
      }
    }
  }

  /** The stem of an uploaded file name: every `.torrent` removed, as `name.replace('.torrent', '')`. */
  function FileStem(filename: string): (stem: string)
    ensures |stem| <= |filename|
    ensures forall c :: c in stem ==> c in filename
  {
    Replace(filename, TorrentExtension, "")
  }

  /** For the usual upload name `x.torrent`, where `x` holds no other `.torrent`, the stem is `x`. */
  lemma FileStemOfUpload(x: string)
    requires !Contains(x, TorrentExtension)
    ensures IsTorrentFileName(x + TorrentExtension)
    ensures FileStem(x + TorrentExtension) == x
  {
    assert TorrentExtension[0] !in TorrentExtension[1..];
    ReplaceTrailing(x, TorrentExtension, "");
    assert (x + TorrentExtension)[|x|..] == TorrentExtension;
  }

  /** Every `.torrent` goes, not only a trailing one: the stem of `a + ".torrent" + b`, where
      `a` holds none, is `a` followed by the stem of `b`. */
  lemma FileStemSplit(a: string, b: string)
    requires !Contains(a, TorrentExtension)
    ensures FileStem(a + TorrentExtension + b) == a + FileStem(b)
  {
    assert TorrentExtension[0] !in TorrentExtension[1..];
    ReplaceSplit(a, TorrentExtension, b, "");
    assert a + "" == a;
  }

  /** Removal is a single left-to-right pass: in `.tor.torrentrent` the inner `.torrent` goes
      and the text around it closes up into a new `.torrent`, which stays. */
  lemma FileStemSinglePass(filename: string)
    requires filename == ".tor.torrentrent"
    ensures FileStem(filename) == TorrentExtension
  {
    var a, b := ".tor", "rent";
    SinglePassParts(filename, a, b);
    MissingFirstChar(b, TorrentExtension);
    FileStemSplit(a, b);
  }

  /** The parts of that example around its inner `.torrent`. */
  lemma SinglePassParts(filename: string, a: string, b: string)
    requires filename == ".tor.torrentrent" && a == ".tor" && b == "rent"
    ensures filename == a + TorrentExtension + b && a + b == TorrentExtension
    ensures !Contains(a, TorrentExtension) && TorrentExtension[0] !in b
  {
  }

  /** A link `pre + "dn=" + raw`, where neither part holds `dn=` and `raw` holds no `&`, is
      named after `raw`. */
  lemma PlainDisplayName(pre: string, raw: string, stamp: string)
    requires !Contains(pre, NameKey) && !Contains(raw, NameKey) && NameEnd !in raw
    ensures DisplayName(pre + NameKey + raw, stamp) == Decode(raw)
  {
    var link := pre + NameKey + raw;
    KeyAfterClean(pre, raw);
    assert link[|pre| + |NameKey|..] == raw;
    forall q | 0 <= q < |raw| ensures !Stop(raw, q) {
      assert raw[q] in raw;
      assert !OccursAt(raw, NameKey, q);
    }
    assert NameField(link, |pre|, raw);
    DisplayNameSpec(link, stamp);
  }

  /** The first `dn=` of `pre + "dn=" + rest` is the one after `pre` when `pre` holds none:
      `d` does not recur in `dn=`, so no occurrence can start inside `pre`. */
  lemma KeyAfterClean(pre: string, rest: string)
    requires !Contains(pre, NameKey)
    ensures OccursAt(pre + NameKey + rest, NameKey, |pre|)
    ensures forall j :: 0 <= j < |pre| ==> !OccursAt(pre + NameKey + rest, NameKey, j)
  {
    assert NameKey[0] !in NameKey[1..];
    NoEarlyOccurrence(pre, NameKey, rest);
    assert (pre + NameKey + rest)[|pre|..|pre| + |NameKey|] == NameKey;
  }

  /** A second `dn=` ends the name just as `&` does: `pre + "dn=" + raw + "dn=" + rest` is
      named after `raw`, whatever `rest` holds, `&` included. */
  lemma SecondKeyEndsName(pre: string, raw: string, rest: string, stamp: string)
    requires !Contains(pre, NameKey) && !Contains(raw, NameKey) && NameEnd !in raw
    ensures DisplayName(pre + NameKey + raw + NameKey + rest, stamp) == Decode(raw)
  {
    var after := raw + NameKey + rest;
    var link := pre + NameKey + after;
    assert link == pre + NameKey + raw + NameKey + rest;
    KeyAfterClean(pre, after);
    KeyAfterClean(raw, rest);
    assert link[|pre| + |NameKey|..] == after;
    forall q | 0 <= q < |raw| ensures !Stop(after, q) {
      assert after[q] == raw[q];
      assert raw[q] in raw;
    }
    assert NameField(link, |pre|, raw);
    DisplayNameSpec(link, stamp);
  }

  /** `%20` becomes a space: decoding `a + "%20" + b`, where `a` holds neither `+` nor `%`,
      keeps `a`, puts a space for the `%20` and decodes `b`. */
  lemma DecodePercentSpace(a: string, b: string)
    requires '+' !in a && '%' !in a
    ensures Decode(a + "%20" + b) == a + " " + Decode(b)
  {
    var head := a + "%20";
    var pb := Replace(b, "+", " ");
    ReplaceCharAppend(head, b, '+', ' ');
    assert '+' !in head;
    MissingFirstChar(head, "+");
    assert Replace(head + b, "+", " ") == a + "%20" + pb;
    MissingFirstChar(a, "%20");
    ReplaceSplit(a, "%20", pb, " ");
  }

  /** Text with neither `+` nor `%` decodes to itself. */
  lemma DecodePlain(raw: string)
    requires '+' !in raw && '%' !in raw
    ensures Decode(raw) == raw
  {
    MissingFirstChar(raw, "%20");
  }

  /** Without `%`, decoding only turns `+` into spaces. */
  lemma DecodeWithoutPercent(raw: string)
    requires '%' !in raw
    ensures Decode(raw) == Replace(raw, "+", " ")
  {
    var spaced := Replace(raw, "+", " ");
    assert '%' !in spaced;
    MissingFirstChar(spaced, "%20");
  }

  /** `+` becomes a space: decoding `a + "+" + b`, where `a` holds neither `+` nor `%`, keeps
      `a`, puts a space for the `+` and decodes `b`. */
  lemma DecodePlusSpace(a: string, b: string)
    requires '+' !in a && '%' !in a
    ensures Decode(a + "+" + b) == a + " " + Decode(b)
  {
    MissingFirstChar(a, "+");
    ReplaceSplit(a, "+", b, " ");
    CopiedWithoutPercent(a + " ", Replace(b, "+", " "));
  }

  /** Text without `%` in front is copied by the `%20` pass. */
  lemma CopiedWithoutPercent(head: string, rest: string)
    requires '%' !in head
    ensures Replace(head + rest, "%20", " ") == head + Replace(rest, "%20", " ")
  {
    forall j | 0 <= j < |head| ensures !OccursAt(head + rest, "%20", j) {
      assert (head + rest)[j] == head[j];
    }
    ReplaceSkip(head + rest, |head|, "%20", " ");
    assert (head + rest)[..|head|] == head && (head + rest)[|head|..] == rest;
  }

  /** `My+Movie` decodes to `My Movie`. */
  lemma ExampleDecode(raw: string)
    requires raw == "My+Movie"
    ensures Decode(raw) == "My Movie"
  {
    var a, b := "My", "Movie";
    ExampleParts(raw, a, "+", b);
    DecodePlusSpace(a, b);
    DecodePlain(b);
    SpacedWords(a, b);
  }

  /** `My%20Movie` decodes to `My Movie`. */
  lemma ExamplePercentDecode(raw: string)
    requires raw == "My%20Movie"
    ensures Decode(raw) == "My Movie"
  {
    var a, b := "My", "Movie";
    ExampleParts(raw, a, "%20", b);
    DecodePercentSpace(a, b);
    DecodePlain(b);
    SpacedWords(a, b);
  }

  /** The example values split around their encoded space. */
  lemma ExampleParts(raw: string, a: string, sep: string, b: string)
    requires a == "My" && b == "Movie"
    requires sep == "+" || sep == "%20"
    requires raw == (if sep == "+" then "My+Movie" else "My%20Movie")
    ensures raw == a + sep + b
  {
  }

  /** The words of the examples joined by the decoded space. */
  lemma SpacedWords(a: string, b: string)
    requires a == "My" && b == "Movie"
    ensures a + " " + b == "My Movie"
  {
  }

  /** A sample link yields the name `My Movie`. */
  lemma ExampleDisplayName(link: string, stamp: string)
    requires link == "magnet:?xt=urn:btih:ABC&dn=My+Movie"
    ensures DisplayName(link, stamp) == "My Movie"
  {
    var pre, raw := "magnet:?xt=urn:btih:ABC&", "My+Movie";
    SampleLinkParts(link, pre, raw);
    MissingFirstChar(pre, NameKey);
    MissingFirstChar(raw, NameKey);
    PlainDisplayName(pre, raw, stamp);
    ExampleDecode(raw);
  }

  /** The parts of that link around its `dn=`. */
  lemma SampleLinkParts(link: string, pre: string, raw: string)
    requires link == "magnet:?xt=urn:btih:ABC&dn=My+Movie"
    requires pre == "magnet:?xt=urn:btih:ABC&" && raw == "My+Movie"
    ensures link == pre + NameKey + raw
    ensures NameKey[0] !in pre && NameKey[0] !in raw && NameEnd !in raw
  {
  }
}
