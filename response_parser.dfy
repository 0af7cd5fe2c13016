/** The reply parsing of OpenAIClient.summarize_with_key_points
    (src/api/openai_api.py): the model's reply is expected to be a `[요약]`
    section followed by a `[핵심 포인트]` section of `-` bullets. The chat
    call itself is left out; its reply text is the input here. */
module ResponseParser {
  import opened Seqs
  import opened Text

  const SummaryMarker: string := "[요약]"
  const KeyPointsMarker: string := "[핵심 포인트]"

  /** The dict `{'summary': ..., 'key_points': [...]}`. */
  datatype Analysis = Analysis(summary: string, keyPoints: seq<string>)

  /** The filter of the comprehension: `line.strip().startswith('-')`. */
  predicate IsBullet(line: string): (b: bool)
    ensures b ==> '-' in line
  {
    var a := TrimStart(line, IsSpace);
    TrimStartSuffix(line, IsSpace);
    TrimEndPrefix(a, IsSpace);
    assert StartsWith(Strip(line), "-") ==> line[|line| - |a|] == '-';
    StartsWith(Strip(line), "-")
  }

  /** Trailing blanks do not matter: a line is a bullet iff its first
      character that is not whitespace is `-`. */
  lemma IsBulletMeans(line: string)
    ensures IsBullet(line) <==> (var a := TrimStart(line, IsSpace); a != [] && a[0] == '-')
  {
    var a := TrimStart(line, IsSpace);
    var r := TrimEnd(a, IsSpace);
    TrimEndPrefix(a, IsSpace);
    assert Strip(line) == r;
    if a != [] && a[0] == '-' {
      assert r != [];
      assert r[0] == a[0];
    }
  }

  /** The element of the comprehension: `line.strip('- ').strip()`. */
  function CleanPoint(line: string): (r: string)
    ensures IsStripped(r)
    ensures |r| <= |line|
  {
    Strip(Trim(line, IsDashOrBlank))
  }

  /** `[CleanPoint(line) for line in lines if IsBullet(line)]`. */
  function BulletPoints(lines: seq<string>): (r: seq<string>)
    ensures |r| <= |lines|
  {
    FilterMap(lines, IsBullet, CleanPoint)
  }

  /** The key points are exactly the bullet lines, in order, each cleaned;
      so each of them is stripped. */
  lemma BulletPointsSelect(lines: seq<string>)
    ensures BulletPoints(lines) == MapSeq(CleanPoint, Select(lines, MaskOf(lines, IsBullet)))
    ensures forall k :: 0 <= k < |BulletPoints(lines)| ==> IsStripped(BulletPoints(lines)[k])
  {
    FilterMapSelect(lines, IsBullet, CleanPoint);
  }

  /** The key points of a section: `points_text = parts[1].strip()`, split
      into lines, filtered and cleaned. */
  function KeyPointsOf(section: string): (r: seq<string>)
    ensures |r| <= |SplitOn(Strip(section), "\n")|
    ensures forall k :: 0 <= k < |r| ==> IsStripped(r[k])
  {
    BulletPointsSelect(SplitOn(Strip(section), "\n"));
    BulletPoints(SplitOn(Strip(section), "\n"))
  }

  /** The stripped reply `content` split at the first key-points marker:
      the summary is the text before it with every summary marker removed,
      stripped; the key points are the bullet lines of the section after it,
      up to the next marker, or none when there is no marker. */
  function ParseContent(content: string): (r: Analysis)
    ensures IsStripped(r.summary)
    ensures forall k :: 0 <= k < |r.keyPoints| ==> IsStripped(r.keyPoints[k])
  {
    var parts := SplitOn(content, KeyPointsMarker);
    var summary := Strip(RemoveAll(parts[0], SummaryMarker));
    var keyPoints := if |parts| > 1 then KeyPointsOf(parts[1]) else [];
    Analysis(summary, keyPoints)
  }

  /** The reply is stripped and then parsed by `ParseContent`. */
  function ParseResponse(reply: string): (r: Analysis)
    ensures IsStripped(r.summary)
    ensures forall k :: 0 <= k < |r.keyPoints| ==> IsStripped(r.keyPoints[k])
    ensures r == ParseContent(Strip(reply))
  {
    ParseContent(Strip(reply))
  }

  /** Without the key-points marker there are no key points, and the summary
      is the whole content with `[요약]` removed, stripped. */
  lemma ParseWithoutMarker(content: string)
    requires !Contains(content, KeyPointsMarker)
    ensures ParseContent(content).keyPoints == []
    ensures ParseContent(content).summary == Strip(RemoveAll(content, SummaryMarker))
  {
    assert Find(content, KeyPointsMarker).None?;
  }

  /** The text between the first marker and the next one (or the end). */
  function FirstSection(rest: string): (r: string)
    ensures !Contains(r, KeyPointsMarker)
    ensures StartsWith(rest, r)
  {
    assert KeyPointsMarker != [];
    SplitOn(rest, KeyPointsMarker)[0]
  }

  /** With the marker first found at `i`: the summary comes from the text
      before it, and the key points only from the text after it up to the
      next marker; anything after a second marker is ignored. */
  lemma ParseWithMarker(content: string, i: nat)
    requires Find(content, KeyPointsMarker) == Some(i)
    ensures ParseContent(content).summary == Strip(RemoveAll(content[..i], SummaryMarker))
    ensures ParseContent(content).keyPoints
            == KeyPointsOf(FirstSection(content[i + |KeyPointsMarker|..]))
  {
    var rest := content[i + |KeyPointsMarker|..];
    var tail := SplitOn(rest, KeyPointsMarker);
    assert SplitOn(content, KeyPointsMarker) == [content[..i]] + tail;
  }

  // ---------------------------------------------------------------------
  // the bullet section as the prompt asks for it

  /** A key point that survives being written as a bullet and read back:
      non-empty, on one line, and with neither end a blank, a dash or other
      whitespace. */
  predicate WellFormedPoint(p: string) {
    && p != []
    && '\n' !in p
    && !IsSpace(p[0]) && !IsDashOrBlank(p[0])
    && !IsSpace(p[|p| - 1]) && !IsDashOrBlank(p[|p| - 1])
  }

  /** `- point` lines joined with newlines. */
  function RenderBullets(points: seq<string>): string {
    Join(BulletLines(points), "\n")
  }

  lemma BulletLine(p: string)
    requires WellFormedPoint(p)
    ensures IsBullet("- " + p) && CleanPoint("- " + p) == p
  {
    var line := "- " + p;
    assert Strip(line) == line by {
      assert line[0] == '-' && line[|line| - 1] == p[|p| - 1];
      TrimUnchanged(line, IsSpace);
    }
    assert StartsWith(line, "-") by {
      assert line[..1] == "-";
    }
    assert Trim(line, IsDashOrBlank) == p by {
      TrimAfterDropped("- ", p, IsDashOrBlank);
    }
    assert Strip(p) == p by {
      TrimUnchanged(p, IsSpace);
    }
  }

  function BulletLines(points: seq<string>): (lines: seq<string>)
    ensures |lines| == |points| && forall k :: 0 <= k < |points| ==> lines[k] == "- " + points[k]
  {
    seq(|points|, k requires 0 <= k < |points| => "- " + points[k])
  }

  /** A rendered list starts with a dash and ends with the last point's last
      character, so `strip` leaves it as it is. */
  lemma RenderedStripped(points: seq<string>)
    requires points != []
    requires forall k :: 0 <= k < |points| ==> WellFormedPoint(points[k])
    ensures Strip(RenderBullets(points)) == RenderBullets(points)
  {
    var lines := BulletLines(points);
    var text := RenderBullets(points);
    assert RenderBullets(points) == Join(lines, "\n");
    var last := lines[|lines| - 1];
    var p := points[|points| - 1];
    assert last == "- " + p;
    assert last[|last| - 1] == p[|p| - 1];
    JoinEndsWithLast(lines, "\n");
    assert text[|text| - 1] == last[|last| - 1] by {
      assert text[|text| - |last|..][|last| - 1] == last[|last| - 1];
    }
    assert text[0] == '-' by {
      if |lines| == 1 {
        assert text == lines[0];
      } else {
        assert text == lines[0] + "\n" + Join(lines[1..], "\n");
      }
      assert lines[0][0] == '-';
    }
    TrimUnchanged(text, IsSpace);
  }

  /** Reading back a rendered bullet list gives the points it was made of. */
  lemma BulletsRoundTrip(points: seq<string>)
    requires forall k :: 0 <= k < |points| ==> WellFormedPoint(points[k])
    ensures KeyPointsOf(RenderBullets(points)) == points
  {
    var lines := BulletLines(points);
    var text := RenderBullets(points);
    assert text == Join(lines, "\n");
    if points == [] {
      assert text == [];
      assert SplitOn(text, "\n") == [[]];
    } else {
      RenderedStripped(points);
      forall k | 0 <= k < |lines| ensures '\n' !in lines[k] {
        assert lines[k] == "- " + points[k];
      }
      SplitOnJoin(lines, '\n');
      assert SplitOn(Strip(text), "\n") == lines;
      BulletsOf(points, lines);
    }
  }

  lemma BulletsOf(points: seq<string>, lines: seq<string>)
    requires forall k :: 0 <= k < |points| ==> WellFormedPoint(points[k])
    requires |lines| == |points| && forall k :: 0 <= k < |points| ==> lines[k] == "- " + points[k]
    ensures BulletPoints(lines) == points
  {
    forall k | 0 <= k < |points| ensures IsBullet(lines[k]) && CleanPoint(lines[k]) == points[k] {
      BulletLine(points[k]);
    }
    FilterMapAll(lines, IsBullet, CleanPoint);
  }
}
