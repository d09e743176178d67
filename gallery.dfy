/** The naming logic of the map-gallery script (data-automation/thumbnail-generator.py):
    which files become gallery entries, where their thumbnails go, which of
    them are generated, and what each gallery card shows and links to. The
    file system is a set of existing paths. */
module Gallery {
  import opened Strings

  /** `MAPS_DIR`: where the route maps are. */
  const MAPS_DIR: string := "../maps"

  /** `THUMBS_DIR = os.path.join(MAPS_DIR, "map-thumbnails")`. */
  const THUMBS_DIR: string := PathJoin(MAPS_DIR, "map-thumbnails")

  /** `os.path.join(a, b)` on POSIX: an absolute `b` replaces `a`; otherwise a
      slash goes between them unless `a` is empty or already ends in one. */
  function PathJoin(a: string, b: string): string
  {
    if StartsWith(b, "/") then b
    else if a == [] || EndsWith(a, "/") then a + b
    else a + "/" + b
  }

  lemma ThumbsDirValue()
    ensures THUMBS_DIR == "../maps/map-thumbnails"
  {
    assert "map-thumbnails"[..1] == ['m'];
    assert "../maps"[6..] != "/";
  }

  /** Index of the last occurrence of `c`, or -1. */
  function LastIndexOf(s: string, c: char): (i: int)
    ensures -1 <= i < |s|
    ensures i >= 0 ==> s[i] == c
    ensures forall k :: i < k < |s| ==> s[k] != c
  {
    if s == [] then -1
    else if s[|s| - 1] == c then |s| - 1
    else LastIndexOf(s[..|s| - 1], c)
  }

  /** `os.path.splitext(p)`: the extension runs from the last dot of the last
      path component, unless everything before that dot in the component is
      dots (`.html` and `..html` have no extension). */
  function SplitExt(p: string): (parts: (string, string))
    ensures parts.0 + parts.1 == p
    ensures parts.1 == [] || (parts.1[0] == '.' && '.' !in parts.1[1..] && '/' !in parts.1)
  {
    var sep := LastIndexOf(p, '/');
    var dot := LastIndexOf(p, '.');
    if dot > sep && exists k :: sep < k < dot && p[k] != '.' then
      assert p[..dot] + p[dot..] == p;
      (p[..dot], p[dot..])
    else
      (p, "")
  }

  /** `os.path.splitext(html_file)[0]`. */
  function Base(file: string): string
  {
    SplitExt(file).0
  }

  /** For a map file with a proper name, the base is the name without `.html`. */
  lemma BaseOfHtml(file: string)
    requires EndsWith(file, ".html") && '/' !in file
    requires exists k :: 0 <= k < |file| - 5 && file[k] != '.'
    ensures Base(file) == file[..|file| - 5]
  {
    var dot := LastIndexOf(file, '.');
    assert file[|file| - 5] == '.';
    assert dot == |file| - 5;
    assert LastIndexOf(file, '/') == -1;
  }

  /** A file named only with dots before `.html` keeps its whole name as base. */
  lemma BaseOfDotsOnly(file: string)
    requires EndsWith(file, ".html") && '/' !in file
    requires forall k :: 0 <= k < |file| - 5 ==> file[k] == '.'
    ensures Base(file) == file
  {
    var dot := LastIndexOf(file, '.');
    assert file[|file| - 5] == '.';
    assert dot == |file| - 5;
  }

  // ----- which files -----

  /** `[f for f in os.listdir(MAPS_DIR) if f.endswith(".html")]`. */
  function HtmlOnly(listing: seq<string>): (r: seq<string>)
    ensures forall f :: f in r <==> f in listing && EndsWith(f, ".html")
    ensures forall f :: EndsWith(f, ".html") ==> multiset(r)[f] == multiset(listing)[f]
  {
    if listing == [] then []
    else
      assert listing == [listing[0]] + listing[1..];
      (if EndsWith(listing[0], ".html") then [listing[0]] else []) + HtmlOnly(listing[1..])
  }

  /** `html_files` after `html_files.sort()`. */
  function HtmlFiles(listing: seq<string>): seq<string>
  {
    Sort(HtmlOnly(listing))
  }

  /** The collected files are exactly the `.html` entries, each as often as
      listed, in ascending order, and that order is the only sorted one. */
  lemma HtmlFilesSpec(listing: seq<string>, other: seq<string>)
    ensures forall f :: f in HtmlFiles(listing) <==> f in listing && EndsWith(f, ".html")
    ensures Sorted(HtmlFiles(listing))
    ensures multiset(HtmlFiles(listing)) == multiset(HtmlOnly(listing))
    ensures Sorted(other) && multiset(other) == multiset(HtmlOnly(listing)) ==> other == HtmlFiles(listing)
  {
    var r := HtmlFiles(listing);
    forall f
      ensures f in r <==> f in listing && EndsWith(f, ".html")
    {
      assert f in r <==> f in multiset(r);
    }
    if Sorted(other) && multiset(other) == multiset(HtmlOnly(listing)) {
      SortedUnique(other, r);
    }
  }

  // ----- thumbnails -----

  /** `os.path.join(THUMBS_DIR, base + ".png")`. */
  function ThumbPath(file: string): string
  {
    PathJoin(THUMBS_DIR, Base(file) + ".png")
  }

  /** A thumbnail is the base name with `.png`, inside `../maps/map-thumbnails`. */
  lemma ThumbPathShape(file: string)
    requires '/' !in file
    ensures ThumbPath(file) == "../maps/map-thumbnails/" + Base(file) + ".png"
  {
    var b := Base(file) + ".png";
    ThumbsDirValue();
    assert SplitExt(file).0 + SplitExt(file).1 == file;
    assert b[0] != '/' by {
      if Base(file) != [] {
        assert Base(file)[0] == file[0];
      }
    }
    assert b[..1] == [b[0]];
  }

  /** The thumbnail paths written in order by the generation loop, when the
      paths in `existing` are already there: a path is written only if it
      does not exist yet, and once written it exists. */
  function NewThumbs(files: seq<string>, existing: set<string>): seq<string>
  {
    if files == [] then []
    else
      var p := ThumbPath(files[0]);
      if p in existing then NewThumbs(files[1..], existing)
      else [p] + NewThumbs(files[1..], existing + {p})
  }

  /** The paths that exist once every collected file has its thumbnail. */
  function Covered(files: seq<string>, existing: set<string>): set<string>
  {
    existing + set f | f in files :: ThumbPath(f)
  }

  /** The thumbnail loop (`for html_file in html_files`): one pass over the
      sorted files, creating the thumbnails whose paths do not exist. */
  method GenerateMissing(files: seq<string>, existing: set<string>) returns (written: seq<string>, present: set<string>)
    ensures written == NewThumbs(files, existing)
    ensures present == Covered(files, existing)
  {
    written := [];
    present := existing;
    var i := 0;
    while i < |files|
      invariant i <= |files|
      invariant written + NewThumbs(files[i..], present) == NewThumbs(files, existing)
      invariant present == Covered(files[..i], existing)
    {
      var thumbPath := ThumbPath(files[i]);
      GenerateStep(files, existing, i, written, present);
      if thumbPath !in present {
        written := written + [thumbPath];
        present := present + {thumbPath};
      }
      i := i + 1;
    }
    assert files[..i] == files;
  }

  /** One turn of the thumbnail loop keeps both of its invariants. */
  lemma GenerateStep(files: seq<string>, existing: set<string>, i: nat, written: seq<string>, present: set<string>)
    requires i < |files|
    requires written + NewThumbs(files[i..], present) == NewThumbs(files, existing)
    requires present == Covered(files[..i], existing)
    ensures var p := ThumbPath(files[i]);
      var written' := if p in present then written else written + [p];
      var present' := if p in present then present else present + {p};
      written' + NewThumbs(files[i + 1..], present') == NewThumbs(files, existing)
      && present' == Covered(files[..i + 1], existing)
  {
    var p := ThumbPath(files[i]);
    NewThumbsStep(files, i, present);
    CoveredStep(files, i, existing);
    if p !in present {
      assert written + ([p] + NewThumbs(files[i + 1..], present + {p}))
        == (written + [p]) + NewThumbs(files[i + 1..], present + {p});
    }
  }

  lemma NewThumbsStep(files: seq<string>, i: nat, present: set<string>)
    requires i < |files|
    ensures var p := ThumbPath(files[i]);
      NewThumbs(files[i..], present)
      == if p in present then NewThumbs(files[i + 1..], present) else [p] + NewThumbs(files[i + 1..], present + {p})
  {
    assert files[i..][1..] == files[i + 1..];
  }

  lemma CoveredStep(files: seq<string>, i: nat, existing: set<string>)
    requires i < |files|
    ensures Covered(files[..i + 1], existing) == Covered(files[..i], existing) + {ThumbPath(files[i])}
  {
    assert files[..i + 1] == files[..i] + [files[i]];
  }

  /** Existing thumbnails are never regenerated, no thumbnail is written
      twice, and the written ones are exactly those that were missing. */
  lemma {:induction false} NewThumbsSpec(files: seq<string>, existing: set<string>)
    ensures forall p :: p in NewThumbs(files, existing) ==> p !in existing
    ensures forall i, j :: 0 <= i < j < |NewThumbs(files, existing)| ==> NewThumbs(files, existing)[i] != NewThumbs(files, existing)[j]
    ensures forall p :: p in NewThumbs(files, existing) <==> p in Covered(files, existing) && p !in existing
  {
    if files != [] {
      var p := ThumbPath(files[0]);
      var rest := files[1..];
      assert files == [files[0]] + rest;
      assert Covered(files, existing) == Covered(rest, existing) + {p};
      if p in existing {
        NewThumbsSpec(rest, existing);
      } else {
        NewThumbsSpec(rest, existing + {p});
        assert Covered(rest, existing + {p}) == Covered(rest, existing) + {p};
      }
    }
  }

  /** After the loop, every collected file has its thumbnail. */
  lemma EveryFileHasThumbnail(files: seq<string>, existing: set<string>, file: string)
    requires file in files
    ensures ThumbPath(file) in Covered(files, existing)
  {
  }

  /** `"\n".join(name.split("_")[1:]).replace(".html", "")`: the text drawn
      on a generated thumbnail. */
  function ThumbText(name: string): string
  {
    Replace(Join(Split(name, '_')[1..], "\n"), ".html", "")
  }

  /** Before `.html` is removed, the text is everything after the first
      underscore, with the remaining underscores turned into line breaks; a
      name without underscores gives an empty text. */
  lemma ThumbTextLines(name: string)
    ensures Join(Split(name, '_')[1..], "\n") == MapChar(AfterFirst(name, '_'), '_', '\n')
    ensures '_' !in name ==> ThumbText(name) == ""
  {
    JoinTail(name, '_', '\n');
    if '_' !in name {
      NoSeparatorNoTail(name, '_');
    }
  }

  /** The `.html` suffix of a map name never reaches the drawn text: the
      name with and without it draw the same. */
  lemma ThumbTextDropsSuffix(x: string)
    ensures ThumbText(x + ".html") == ThumbText(x)
  {
    var name := x + ".html";
    ThumbTextLines(name);
    ThumbTextLines(x);
    assert '_' !in ".html";
    if '_' in x {
      var tail := AfterFirst(x, '_');
      AfterFirstAppend(x, ".html", '_');
      MapCharConcat(tail, ".html", '_', '\n');
      MapCharUntouched(".html", '_', '\n');
      HtmlBorderless();
      ReplaceAppend(MapChar(tail, '_', '\n'), ".html", "");
    } else {
      assert '_' !in name;
    }
  }

  lemma HtmlBorderless()
    ensures Borderless(".html")
  {
    var p := ".html";
    forall k | 0 < k < |p|
      ensures p[k..] != p[..|p| - k]
    {
      assert p[..|p| - k][0] == '.';
      assert p[k..][0] != '.';
    }
  }

  lemma {:induction false} NoSeparatorNoTail(s: string, sep: char)
    requires sep !in s
    ensures AfterFirst(s, sep) == []
  {
    if s != [] {
      NoSeparatorNoTail(s[1..], sep);
    }
  }

  /** `name.replace("route_", "").replace("_", " ")`: the caption of a card. */
  function CardLabel(name: string): string
  {
    Replace(Replace(name, "route_", ""), "_", " ")
  }

  /** A caption has no underscore, so in particular no `route_` survives,
      even one that the first replacement joined together. */
  lemma CardLabelSpec(name: string)
    ensures CardLabel(name) == MapChar(Replace(name, "route_", ""), '_', ' ')
    ensures '_' !in CardLabel(name)
  {
    ReplaceChar(Replace(name, "route_", ""), '_', ' ');
  }

  // ----- worked examples -----

  /** The caption of `route_a_b` reads `a b`. */
  lemma CardLabelExample()
    ensures CardLabel("route_a_b") == "a b"
  {
    RouteDropped();
    assert MapChar("a_b", '_', ' ') == "a b";
    CardLabelSpec("route_a_b");
  }

  lemma RouteDropped()
    ensures Replace("route_a_b", "route_", "") == "a_b"
  {
    var s := "route_a_b";
    assert s[..6] == "route_";
    assert s[6..] == "a_b";
    assert forall i :: !OccursAt("a_b", "route_", i);
    ReplaceAbsent("a_b", "route_", "");
  }

  /** `.html` is removed in one left-to-right pass, so removing it can join
      a new `.html` together: the name `a_.ht.htmlml` is drawn as `.html`. */
  lemma ThumbTextSinglePass()
    ensures ThumbText("a_.ht.htmlml") == ".html"
  {
    var name := "a_.ht.htmlml";
    ThumbTextLines(name);
    assert name[1..] == "_.ht.htmlml";
    assert name[1..][1..] == ".ht.htmlml";
    MapCharUntouched(".ht.htmlml", '_', '\n');
    HtmlRemovedOnce();
  }

  lemma HtmlRemovedOnce()
    ensures Replace(".ht.htmlml", ".html", "") == ".html"
  {
    var u := ".ht.htmlml";
    assert u[3..] == ".htmlml";
    assert u[3..][..5] == ".html";
    assert u[3..][5..] == "ml";
    assert Replace("ml", ".html", "") == "ml";
    assert Replace(u[3..], ".html", "") == "ml";
    assert u[2..] == "t.htmlml";
    assert u[2..][..5] != ".html" by { assert u[2..][..5][0] == 't'; }
    assert Replace(u[2..], ".html", "") == "tml";
    assert u[1..] == "ht.htmlml";
    assert u[1..][..5] != ".html" by { assert u[1..][..5][0] == 'h'; }
    assert Replace(u[1..], ".html", "") == "html";
    assert u[..5] != ".html" by { assert u[..5][3] == '.'; }
  }

  // ----- the gallery page -----

  /** One `<a class="card">` element: its link, its image, the image's alt
      text and its caption. */
  datatype Card = Card(href: string, image: string, alt: string, caption: string)

  /** The card written for one collected file, as the script writes it. */
  function CardFor(file: string): Card
  {
    var name := Base(file);
    var caption := CardLabel(name);
    Card(MAPS_DIR + "/" + file, MAPS_DIR + "/thumbnails/" + name + ".png", caption + " thumbnail", caption)
  }

  /** The card with its image taken from where the thumbnails are written. */
  function CorrectedCardFor(file: string): Card
  {
    CardFor(file).(image := ThumbPath(file))
  }

  /** The card loop that writes the gallery page: one card per collected file, in order. */
  method EmitCards(files: seq<string>) returns (cards: seq<Card>)
    ensures |cards| == |files|
    ensures forall i :: 0 <= i < |files| ==> cards[i] == CardFor(files[i])
  {
    cards := [];
    for i := 0 to |files|
      invariant |cards| == i
      invariant forall j :: 0 <= j < i ==> cards[j] == CardFor(files[j])
    {
      cards := cards + [CardFor(files[i])];
    }
  }

  /** Every card links to its map and is captioned and described by the map's
      label, which contains no underscore. */
  lemma CardSpec(file: string)
    ensures CardFor(file).href == "../maps/" + file
    ensures CardFor(file).alt == CardFor(file).caption + " thumbnail"
    ensures '_' !in CardFor(file).caption
  {
    CardLabelSpec(Base(file));
  }

  /** A card's image path has `t` at position 8, the first letter of
      `thumbnails` in `../maps/thumbnails/`. */
  lemma CardImageAt8(file: string)
    ensures |CardFor(file).image| > 8 && CardFor(file).image[8] == 't'
  {
    var dir := MAPS_DIR + "/thumbnails/";
    assert |dir| > 8 && dir[8] == 't';
    assert CardFor(file).image == dir + (Base(file) + ".png");
  }

  /** As written, no card's image is a thumbnail the script creates: images
      are looked up under `../maps/thumbnails/` while thumbnails are written
      under `../maps/map-thumbnails/`. */
  lemma AsWrittenImageNeverGenerated(files: seq<string>, file: string)
    requires forall f :: f in files ==> '/' !in f
    ensures CardFor(file).image !in set f | f in files :: ThumbPath(f)
  {
    var image := CardFor(file).image;
    CardImageAt8(file);
    forall f | f in files
      ensures image != ThumbPath(f)
    {
      ThumbPathShape(f);
      assert ThumbPath(f)[8] == 'm';
    }
  }

  /** With the image taken from the thumbnail directory, every card of the
      page shows a thumbnail that exists once the generation loop is done. */
  lemma CorrectedImageExists(listing: seq<string>, existing: set<string>, file: string)
    requires file in HtmlFiles(listing)
    ensures CorrectedCardFor(file).image in Covered(HtmlFiles(listing), existing)
  {
  }
}
