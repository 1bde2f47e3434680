/**
 The archive naming scheme of the TWIC downloader: the archive file name and
 download URL built for an issue id, and the name of the PGN file taken out of
 a downloaded archive.
 */
module TwicNaming {
  import opened Decimal
  import opened PyStr

  datatype Option<T> = None | Some(value: T)

  const BaseUrl: string := "https://www.theweekinchess.com/zips/"

  /** The archive file name of issue `id`: "twic", the id padded to three digits, "g.zip". */
  function ArchiveName(id: nat): (name: string)
    ensures |name| == |Pad3(id)| + 9
    ensures name[..4] == "twic"
    ensures name[|name| - 5..] == "g.zip"
    ensures var field := name[4..|name| - 5];
      |field| >= 3 && AllDigits(field) && ParseDecimal(field) == id
    ensures id < 1000 <==> |name| == 12
  {
    var name := "twic" + Pad3(id) + "g.zip";
    assert name[4..|name| - 5] == Pad3(id);
    name
  }

  /** The download URL of issue `id`: the archive name appended to the base URL. */
  function Url(id: nat): (url: string)
    ensures BaseUrl <= url
    ensures |url| == |BaseUrl| + |ArchiveName(id)| && url[|BaseUrl|..] == ArchiveName(id)
    ensures url[|url| - 4..] == ".zip"
  {
    var name := ArchiveName(id);
    SuffixOfConcat(BaseUrl, name, 4);
    assert name[|name| - 4..] == name[|name| - 5..][1..];
    BaseUrl + name
  }

  lemma ConcatOfSlices(s: string, i: nat, j: nat)
    requires i <= j <= |s|
    ensures s == s[..i] + s[i..j] + s[j..]
  {
  }

  lemma SuffixOfConcat(a: string, b: string, k: nat)
    requires k <= |b|
    ensures (a + b)[|a + b| - k..] == b[|b| - k..]
  {
  }

  /**
   Reads an archive name back into its id: "twic", then a field of at least
   three digits with no leading zero beyond the padding, then "g.zip".
   */
  function ParseArchiveName(name: string): (id: Option<nat>)
    ensures id.Some? ==> |name| >= 12 && name[..4] == "twic" && name[|name| - 5..] == "g.zip"
    ensures id.Some? ==> AllDigits(name[4..|name| - 5]) && ParseDecimal(name[4..|name| - 5]) == id.value
  {
    if |name| >= 12 && name[..4] == "twic" && name[|name| - 5..] == "g.zip" then
      var field := name[4..|name| - 5];
      if AllDigits(field) && (|field| > 3 ==> field[0] != '0') then Some(ParseDecimal(field))
      else None
    else None
  }

  /** The prefix of `s` before its first 'g', or all of `s` when it has none. */
  function SplitBeforeFirstG(s: string): (prefix: string)
    ensures prefix <= s
    ensures 'g' !in prefix
    ensures |prefix| < |s| ==> s[|prefix|] == 'g'
    decreases |s|
  {
    if s == [] || s[0] == 'g' then [] else [s[0]] + SplitBeforeFirstG(s[1..])
  }

  /** The PGN file extracted from an archive: the first piece of its name split on 'g', then ".pgn". */
  function InnerName(fileName: string): (inner: string)
    ensures inner == SplitBeforeFirstG(fileName) + ".pgn"
    ensures 'g' !in fileName ==> inner == fileName + ".pgn"
  {
    SplitFirstPiece(fileName);
    Split(fileName, 'g')[0] + ".pgn"
  }

  /** Python's first piece of `s.split('g')` is the prefix before the first 'g'. */
  lemma {:induction false} SplitFirstPiece(s: string)
    ensures Split(s, 'g')[0] == SplitBeforeFirstG(s)
    decreases |s|
  {
    if s != [] && s[0] != 'g' {
      SplitFirstPiece(s[1..]);
    }
  }

  /** When `a` has no 'g', the prefix of `a + "g" + b` before its first 'g' is `a`. */
  lemma {:induction false} BeforeFirstGOf(a: string, b: string)
    requires 'g' !in a
    ensures SplitBeforeFirstG(a + ['g'] + b) == a
    decreases |a|
  {
    if a != [] {
      assert a[0] in a;
      assert (a + ['g'] + b)[1..] == a[1..] + ['g'] + b;
      assert forall c | c in a[1..] :: c in a;
      BeforeFirstGOf(a[1..], b);
    }
  }

  /** No 'g' appears in "twic" followed by a digit string. */
  lemma StemHasNoG(digits: string)
    requires AllDigits(digits)
    ensures 'g' !in "twic" + digits
  {
    var stem := "twic" + digits;
    forall i | 0 <= i < |stem| ensures stem[i] != 'g' {
      if i >= 4 {
        assert stem[i] == digits[i - 4];
      }
    }
  }

  /** Extracting from the archive of `id` asks for `"twic" + pad3(id) + ".pgn"`. */
  lemma InnerNameOfArchive(id: nat)
    ensures InnerName(ArchiveName(id)) == "twic" + Pad3(id) + ".pgn"
  {
    var stem := "twic" + Pad3(id);
    StemHasNoG(Pad3(id));
    assert ArchiveName(id) == stem + ['g'] + ".zip";
    BeforeFirstGOf(stem, ".zip");
  }

  /**
   The inner name is one character shorter than the archive name: it is the
   archive name with its "g.zip" ending replaced by ".pgn".
   */
  lemma InnerNameShorter(id: nat)
    ensures var name, inner := ArchiveName(id), InnerName(ArchiveName(id));
      |inner| == |name| - 1 && inner[..|inner| - 4] == name[..|name| - 5] <= name
  {
    InnerNameOfArchive(id);
  }

  /** Reading an archive name back gives its id. */
  lemma ArchiveNameRoundTrip(id: nat)
    ensures ParseArchiveName(ArchiveName(id)) == Some(id)
  {
    var name := ArchiveName(id);
    var field := name[4..|name| - 5];
    assert field == Pad3(id);
  }

  /** Every name that reads back as an id is that id's archive name. */
  lemma ParseArchiveNameSound(name: string, id: nat)
    requires ParseArchiveName(name) == Some(id)
    ensures ArchiveName(id) == name
  {
    var field := name[4..|name| - 5];
    assert |field| > 3 ==> field[0] != '0';
    if |field| > 3 {
      DecimalOfParse(field);
      DecimalLength(id, 3);
    } else {
      DigitsUnique(field, Pad3(id));
    }
    assert field == Pad3(id);
    ConcatOfSlices(name, 4, |name| - 5);
  }

  /** Distinct ids give distinct archive names. */
  lemma ArchiveNameInjective(a: nat, b: nat)
    requires a != b
    ensures ArchiveName(a) != ArchiveName(b)
  {
    ArchiveNameRoundTrip(a);
    ArchiveNameRoundTrip(b);
  }

  /** Distinct ids give distinct URLs. */
  lemma UrlInjective(a: nat, b: nat)
    requires a != b
    ensures Url(a) != Url(b)
  {
    ArchiveNameInjective(a, b);
  }

  /** Distinct ids give distinct extracted file names. */
  lemma InnerNameInjective(a: nat, b: nat)
    requires a != b
    ensures InnerName(ArchiveName(a)) != InnerName(ArchiveName(b))
  {
    InnerNameOfArchive(a);
    InnerNameOfArchive(b);
    Pad3Injective(a, b);
    if InnerName(ArchiveName(a)) == InnerName(ArchiveName(b)) {
      CancelAround("twic", Pad3(a), Pad3(b), ".pgn");
    }
  }

  lemma CancelAround(p: string, x: string, y: string, q: string)
    requires p + x + q == p + y + q
    ensures x == y
  {
    var s := p + x + q;
    assert |x| == |y|;
    assert x == s[|p|..|p| + |x|] == y;
  }
}
