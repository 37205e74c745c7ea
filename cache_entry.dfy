/**
 * The cache entry's text (parbake.py:117-126 writes it, parbake.py:162-165
 * reads it): one line of metadata JSON, a newline, then the page. The file
 * is opened in text mode, so reading translates "\r\n" and a lone "\r" into
 * "\n" before the first line is split off.
 */
module CacheEntry {

  /** What one read of an entry yields: `f.readline()` (with its newline) and `f.read()`. */
  datatype Entry = Entry(firstLine: string, page: string)

  /** The text written: `json.dump(metadata)`, `"\n"`, then `page`. */
  function Write(metadataJson: string, page: string): (r: string)
    ensures |r| == |metadataJson| + 1 + |page|
    ensures r[..|metadataJson|] == metadataJson && r[|metadataJson|] == '\n'
    ensures r[|metadataJson| + 1..] == page
  {
    metadataJson + "\n" + page
  }

  /** Universal-newline translation of a text-mode read. */
  function Translate(s: string): (r: string)
    ensures '\r' !in r
    ensures '\r' !in s ==> r == s
  {
    if s == [] then []
    else if s[0] == '\r' then
      if |s| > 1 && s[1] == '\n' then "\n" + Translate(s[2..]) else "\n" + Translate(s[1..])
    else [s[0]] + Translate(s[1..])
  }

  /**
   * `readline()` then `read()`: the text up to and including the first
   * newline, and everything after it.
   */
  function SplitLine(t: string): (r: (string, string))
    ensures r.0 + r.1 == t
  {
    if t == [] then ([], [])
    else
      assert [t[0]] + t[1..] == t;
      if t[0] == '\n' then ("\n", t[1..])
      else
        var r := SplitLine(t[1..]);
        ([t[0]] + r.0, r.1)
  }

  /**
   * The line `readline()` returns ends at the first newline and holds no
   * other; without a newline the whole text is the line.
   */
  lemma {:induction false} SplitLineShape(t: string)
    ensures var (line, rest) := SplitLine(t);
      ('\n' in t ==> |line| > 0 && line[|line| - 1] == '\n' && forall j :: 0 <= j < |line| - 1 ==> line[j] != '\n') &&
      ('\n' !in t ==> rest == [])
  {
    if t != [] && t[0] != '\n' {
      SplitLineShape(t[1..]);
      var line := SplitLine(t[1..]).0;
      assert SplitLine(t) == ([t[0]] + line, SplitLine(t[1..]).1);
      assert '\n' in t ==> '\n' in t[1..];
      assert forall j :: 1 <= j < |line| + 1 ==> ([t[0]] + line)[j] == line[j - 1];
    }
  }

  function Read(text: string): (e: Entry)
    ensures e.firstLine + e.page == Translate(text)
    ensures forall j :: 0 <= j < |e.firstLine| - 1 ==> e.firstLine[j] != '\n'
    ensures '\n' !in text && '\r' !in text ==> e == Entry(text, [])
  {
    SplitLineShape(Translate(text));
    var (line, rest) := SplitLine(Translate(text));
    Entry(line, rest)
  }

  /**
   * An entry written with a one-line metadata encoding and a page without
   * carriage returns reads back as that line (plus its newline, which the
   * JSON parser ignores) and exactly that page.
   */
  lemma RoundTrip(metadataJson: string, page: string)
    requires '\n' !in metadataJson && '\r' !in metadataJson && '\r' !in page
    ensures Read(Write(metadataJson, page)) == Entry(metadataJson + "\n", page)
  {
    var text := Write(metadataJson, page);
    assert forall k :: 0 <= k < |text| ==> text[k] != '\r';
    SplitAtFirstNewline(metadataJson, page);
  }

  lemma {:induction false} SplitAtFirstNewline(line: string, rest: string)
    requires '\n' !in line
    ensures SplitLine(line + "\n" + rest) == (line + "\n", rest)
  {
    var t := line + "\n" + rest;
    if line == [] {
      assert t == "\n" + rest;
      assert t[1..] == rest;
    } else {
      assert t[0] == line[0] && t[0] != '\n';
      assert t[1..] == line[1..] + "\n" + rest;
      SplitAtFirstNewline(line[1..], rest);
      assert [line[0]] + (line[1..] + "\n") == line + "\n";
    }
  }

  lemma TranslateExample()
    ensures Translate("{}\n\r") == "{}\n\n"
  {
    var text := "{}\n\r";
    assert text[1..] == "}\n\r" && text[1..][1..] == "\n\r" && text[1..][1..][1..] == "\r";
    assert Translate("\r") == "\n";
  }

  lemma SplitExample()
    ensures SplitLine("{}\n\n") == ("{}\n", "\n")
  {
    SplitAtFirstNewline("{}", "\n");
    assert "{}" + "\n" + "\n" == "{}\n\n";
    assert "{}" + "\n" == "{}\n";
  }

  /** Why the page must be free of '\r': a text-mode read turns it into '\n'. */
  lemma CarriageReturnNotPreserved()
    ensures Read(Write("{}", "\r")) == Entry("{}\n", "\n")
  {
    assert Write("{}", "\r") == "{}\n\r";
    TranslateExample();
    SplitExample();
  }
}
