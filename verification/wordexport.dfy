/**
 * Text processing around the Word export of the handout report
 * (`booktool_wordimport_export` and its helpers).  The XSLT transformation
 * and the DOM round trip are host services: the model receives their
 * results as parameters and describes what happens to the text before and
 * after them.
 */
module WordExport {
  import opened Basics
  import opened Strings
  import opened Filtering

  /** What `--` becomes while the content passes through XSLT. */
  const MinusMarker := "WORDIMPORTMinusMinus"
  const SoftHyphen: char := '­'
  const EmptyNamespace := " xmlns=\"\""
  const XhtmlNamespace := " xmlns=\"http://www.w3.org/1999/xhtml\""
  const LucimooDiv := "<div class=\"lucimoo\">"
  const PluginfileImg := "<img src=\"@@PLUGINFILE@@/"

  // ---------------------------------------------------------------------
  // Escaping double minuses

  /** Every `--` becomes the marker before the content is cleaned. */
  function EscapeMinus(s: string): string {
    ReplaceAll(s, "--", MinusMarker)
  }

  /** Every marker becomes `--` again in the export output. */
  function UnescapeMinus(s: string): string {
    ReplaceAll(s, MinusMarker, "--")
  }

  lemma MarkerFirstCharUnique()
    ensures FirstCharUnique(MinusMarker)
  {
    assert forall i :: 1 <= i < |MinusMarker| ==> MinusMarker[i] != 'W';
  }

  /** Un-escaping undoes escaping for any text that does not already hold the marker. */
  lemma EscapeRoundTrip(s: string)
    requires !Occurs(s, MinusMarker)
    ensures UnescapeMinus(EscapeMinus(s)) == s
  {
    MarkerFirstCharUnique();
    ReplaceRoundTrip(s, "--", MinusMarker);
  }

  /** Escaped text has no `--` left for XSLT to trip over: the marker has no `-`. */
  lemma {:induction false} EscapedHasNoDoubleMinus(s: string)
    ensures !Occurs(EscapeMinus(s), "--")
    decreases |s|
  {
    if |s| == 0 {
    } else if StartsWith(s, "--") {
      EscapedHasNoDoubleMinus(s[2..]);
      MarkerThenNoDoubleMinus(EscapeMinus(s[2..]));
    } else {
      EscapedHasNoDoubleMinus(s[1..]);
      if s[0] == '-' && |s| > 1 {
        assert s[..2] == [s[0], s[1]];
        EscapedStart(s[1..]);
      }
      CharThenNoDoubleMinus(s[0], EscapeMinus(s[1..]));
    }
  }

  /** The first character of escaped text: the marker's `W` or the text's own. */
  lemma EscapedStart(s: string)
    requires |s| > 0
    ensures |EscapeMinus(s)| > 0
    ensures EscapeMinus(s)[0] == if StartsWith(s, "--") then 'W' else s[0]
  {
  }

  /** The marker holds no `-`, so it starts no `--` of its own or across its end. */
  lemma MarkerThenNoDoubleMinus(tail: string)
    requires !Occurs(tail, "--")
    ensures !Occurs(MinusMarker + tail, "--")
  {
    var out := MinusMarker + tail;
    forall j | 0 <= j <= |out| - 2 ensures !OccursAt(out, "--", j) {
      if j < |MinusMarker| {
        assert out[j..j + 2][0] == MinusMarker[j] != '-';
      } else {
        var t := j - |MinusMarker|;
        SliceAfterPrefix(MinusMarker, tail, j, j + 2);
        assert !OccursAt(tail, "--", t);
      }
    }
  }

  /** A character in front starts no `--` unless it and the next are both `-`. */
  lemma CharThenNoDoubleMinus(c: char, tail: string)
    requires !Occurs(tail, "--")
    requires c == '-' && |tail| > 0 ==> tail[0] != '-'
    ensures !Occurs([c] + tail, "--")
  {
    var out := [c] + tail;
    forall j | 0 <= j <= |out| - 2 ensures !OccursAt(out, "--", j) {
      if j == 0 {
        assert out[0..2] == [c, tail[0]];
      } else {
        assert out[j..j + 2] == tail[j - 1..j + 1];
        assert !OccursAt(tail, "--", j - 1);
      }
    }
  }

  // ---------------------------------------------------------------------
  // Cleaning the content

  /** `preg_replace('/\xad/u', '', s)`: every soft hyphen removed. */
  function StripSoftHyphens(s: string): (r: string)
    ensures SoftHyphen !in r
    ensures forall c :: c != SoftHyphen ==> (c in r <==> c in s)
    ensures |r| <= |s|
  {
    if |s| == 0 then ""
    else if s[0] == SoftHyphen then StripSoftHyphens(s[1..])
    else
      assert forall c :: c in s <==> c == s[0] || c in s[1..] by { assert s == [s[0]] + s[1..]; }
      [s[0]] + StripSoftHyphens(s[1..])
  }

  /** Text without soft hyphens passes the filter unchanged. */
  lemma {:induction false} StripWithoutSoftHyphen(s: string)
    requires SoftHyphen !in s
    ensures StripSoftHyphens(s) == s
  {
    if |s| > 0 {
      assert s[0] != SoftHyphen;
      StripWithoutSoftHyphen(s[1..]);
      assert s == [s[0]] + s[1..];
    }
  }

  /**
   * The file-name fix-up after `@@PLUGINFILE@@`.  The pattern's last group
   * `(.*)` with the `s` modifier swallows the rest of the text, so there is
   * only one match: the first image's file name (up to the next quote) goes
   * through `urldecode`, and everything else is kept verbatim.
   */
  function FixPluginfileNames(s: string, urldecode: string -> string): string {
    match FirstIndex(s, PluginfileImg)
    case None => s
    case Some(k) =>
      var rest := s[k + |PluginfileImg|..];
      var n := match FirstIndex(rest, "\"") case Some(m) => m case None => |rest|;
      s[..k] + PluginfileImg + urldecode(rest[..n]) + rest[n..]
  }

  /** Cutting the text at an image and its name and gluing it back gives the text. */
  lemma SpliceIdentity(s: string, k: nat, n: nat)
    requires OccursAt(s, PluginfileImg, k)
    requires n <= |s| - k - |PluginfileImg|
    ensures var rest := s[k + |PluginfileImg|..];
            s[..k] + PluginfileImg + rest[..n] + rest[n..] == s
  {
    var front := s[..k];
    var rest := s[k + |PluginfileImg|..];
    assert s[k..k + |PluginfileImg|] == PluginfileImg;
    assert s == front + s[k..k + |PluginfileImg|] + rest;
    assert rest[..n] + rest[n..] == rest;
    Associate(front + PluginfileImg, rest[..n], rest[n..]);
  }

  /** Only the first file name is touched: with an identity decoder the text is unchanged. */
  lemma FixPluginfileIdentity(s: string)
    ensures FixPluginfileNames(s, x => x) == s
  {
    match FirstIndex(s, PluginfileImg)
    case None =>
    case Some(k) =>
      var rest := s[k + |PluginfileImg|..];
      var n := match FirstIndex(rest, "\"") case Some(m) => m case None => |rest|;
      SpliceIdentity(s, k, n);
  }

  /** Text without a plug-in file image is left alone. */
  lemma FixPluginfileAbsent(s: string, urldecode: string -> string)
    requires !Occurs(s, PluginfileImg)
    ensures FixPluginfileNames(s, urldecode) == s
  {
  }

  /**
   * `booktool_wordimport_clean_html_text`: escape double minuses, let the
   * host's DOM round trip produce the body's XHTML (`bodyOf`), fix the file
   * name of the first embedded image, and drop soft hyphens.
   */
  function CleanHtmlText(content: string, bodyOf: string -> string, urldecode: string -> string): (r: string)
    ensures SoftHyphen !in r
  {
    StripSoftHyphens(FixPluginfileNames(bodyOf(EscapeMinus(content)), urldecode))
  }

  /**
   * Apart from the DOM step, cleaning then un-escaping gives back any text
   * that holds no marker, no soft hyphen and no plug-in file image.
   */
  lemma CleanThenUnescape(content: string, urldecode: string -> string)
    requires !Occurs(content, MinusMarker) && SoftHyphen !in content
    requires !Occurs(EscapeMinus(content), PluginfileImg)
    ensures UnescapeMinus(CleanHtmlText(content, x => x, urldecode)) == content
  {
    var escaped := EscapeMinus(content);
    FixPluginfileAbsent(escaped, urldecode);
    assert SoftHyphen !in escaped by {
      MarkerFirstCharUnique();
      EscapeKeepsSoftHyphenFree(content);
    }
    StripWithoutSoftHyphen(escaped);
    EscapeRoundTrip(content);
  }

  /** The marker brings no soft hyphen with it. */
  lemma {:induction false} EscapeKeepsSoftHyphenFree(s: string)
    requires SoftHyphen !in s
    ensures SoftHyphen !in EscapeMinus(s)
    decreases |s|
  {
    if |s| > 0 {
      if StartsWith(s, "--") {
        EscapeKeepsSoftHyphenFree(s[2..]);
        assert SoftHyphen !in MinusMarker;
      } else {
        EscapeKeepsSoftHyphenFree(s[1..]);
      }
    }
  }

  // ---------------------------------------------------------------------
  // Heading offset

  /**
   * The heading offset as written: `strpos` returns 0 for a match at the
   * very start, which PHP treats as false.
   */
  function HeadingOffsetAsWritten(clean: string): (c: char)
    ensures c == '1' <==> Occurs(clean, LucimooDiv) && !StartsWith(clean, LucimooDiv)
    ensures c == '1' || c == '3'
  {
    assert StartsWith(clean, LucimooDiv) ==> OccursAt(clean, LucimooDiv, 0);
    match FirstIndex(clean, LucimooDiv)
    case Some(k) => if k > 0 then '1' else '3'
    case None => '3'
  }

  /** The heading offset as intended: '1' whenever the Lucimoo wrapper is present. */
  function HeadingOffset(clean: string): (c: char)
    ensures c == '1' <==> Occurs(clean, LucimooDiv)
    ensures c == '3' <==> !Occurs(clean, LucimooDiv)
  {
    if Occurs(clean, LucimooDiv) then '1' else '3'
  }

  /** Content that starts with the Lucimoo wrapper gets '3' as written, '1' as intended. */
  lemma HeadingOffsetAtStart()
    ensures HeadingOffsetAsWritten(LucimooDiv) == '3'
    ensures HeadingOffset(LucimooDiv) == '1'
  {
    assert OccursAt(LucimooDiv, LucimooDiv, 0);
  }

  /** Everywhere else the two agree. */
  lemma HeadingOffsetAgrees(clean: string)
    requires !StartsWith(clean, LucimooDiv)
    ensures HeadingOffsetAsWritten(clean) == HeadingOffset(clean)
  {
  }

  // ---------------------------------------------------------------------
  // Post-processing the XSLT output

  /** The two `str_replace` calls as written: each namespace attribute removed in one pass. */
  function StripNamespacesOnce(x: string): string {
    ReplaceAll(ReplaceAll(x, EmptyNamespace, ""), XhtmlNamespace, "")
  }

  /** One pass never lengthens the text, and shortens it when there was something to remove. */
  lemma StripOnceShortens(x: string)
    ensures |StripNamespacesOnce(x)| <= |x|
    ensures Occurs(x, EmptyNamespace) || Occurs(x, XhtmlNamespace) ==> |StripNamespacesOnce(x)| < |x|
  {
    var y := ReplaceAll(x, EmptyNamespace, "");
    ReplaceNoLonger(x, EmptyNamespace, "");
    ReplaceNoLonger(y, XhtmlNamespace, "");
    if Occurs(x, EmptyNamespace) {
      ReplaceShortens(x, EmptyNamespace, "");
    } else if Occurs(x, XhtmlNamespace) {
      ReplaceWithoutOccurrence(x, EmptyNamespace, "");
      ReplaceShortens(y, XhtmlNamespace, "");
    }
  }

  /**
   * Removing an attribute can join the text around it into a new one:
   * ` xmlns=` followed by ` xmlns=""` and `""` leaves ` xmlns=""` behind.
   */
  lemma StripOnceCanLeaveNamespace()
    ensures StripNamespacesOnce(" xmlns=" + EmptyNamespace + "\"\"") == EmptyNamespace
    ensures Occurs(StripNamespacesOnce(" xmlns=" + EmptyNamespace + "\"\""), EmptyNamespace)
  {
    var joined := ReplaceAll(" xmlns=" + EmptyNamespace + "\"\"", EmptyNamespace, "");
    assert joined == EmptyNamespace by {
      JoinedNamespace();
    }
    assert ReplaceAll(EmptyNamespace, XhtmlNamespace, "") == EmptyNamespace by {
      ReplaceWithoutOccurrence(EmptyNamespace, XhtmlNamespace, "");
    }
    assert Occurs(EmptyNamespace, EmptyNamespace) by {
      assert OccursAt(EmptyNamespace, EmptyNamespace, 0);
    }
  }

  /** The first pass removes the inner attribute and joins the outer text into one. */
  lemma JoinedNamespace()
    ensures ReplaceAll(" xmlns=" + EmptyNamespace + "\"\"", EmptyNamespace, "") == EmptyNamespace
  {
    var a := " xmlns=";
    var b := "\"\"";
    OuterPrefixClear(a, EmptyNamespace + b);
    ReplaceAfterClearPrefix(a, EmptyNamespace + b, EmptyNamespace, "");
    ReplaceAtStart(EmptyNamespace, b, "");
    ReplaceWithoutOccurrence(b, EmptyNamespace, "");
    Associate(a, EmptyNamespace, b);
    assert a + b == EmptyNamespace;
  }

  /** No attribute starts inside ` xmlns=` when a space follows it. */
  lemma OuterPrefixClear(a: string, y: string)
    requires a == " xmlns=" && |y| > 0 && y[0] == ' '
    ensures forall k :: 0 <= k < |a| ==> !OccursAt(a + y, EmptyNamespace, k)
  {
    forall k | 0 <= k < |a| ensures !OccursAt(a + y, EmptyNamespace, k) {
      var u := a + y;
      if k + |EmptyNamespace| <= |u| {
        if k > 0 {
          assert u[k..k + |EmptyNamespace|][0] == a[k] != EmptyNamespace[0];
        } else {
          assert u[..|EmptyNamespace|][7] == y[0] != EmptyNamespace[7];
        }
      }
    }
  }

  /** One pass leaves text without either attribute unchanged. */
  lemma StripOnceWithoutAttributes(x: string)
    requires !Occurs(x, EmptyNamespace) && !Occurs(x, XhtmlNamespace)
    ensures StripNamespacesOnce(x) == x
  {
    ReplaceWithoutOccurrence(x, EmptyNamespace, "");
    ReplaceWithoutOccurrence(x, XhtmlNamespace, "");
  }

  /**
   * `strncasecmp($x, "<?xml ", 5) == 0`: the first five characters are
   * `<?xml` in any letter case (the space is not compared).
   */
  predicate HasXmlDeclaration(x: string) {
    |x| >= 5 && AsciiLower(x[..5]) == "<?xml"
  }

  /**
   * Drops the XML declaration: everything before the first newline goes,
   * the newline stays.  Without a newline `strpos` is false, which
   * `substr` reads as 0, so the text is kept whole.
   */
  function StripXmlDeclaration(x: string): (r: string)
    ensures !HasXmlDeclaration(x) ==> r == x
    ensures HasXmlDeclaration(x) && '\n' !in x ==> r == x
    ensures HasXmlDeclaration(x) && '\n' in x ==>
              exists k :: 0 <= k < |x| && r == x[k..] && x[k] == '\n' && '\n' !in x[..k]
  {
    if HasXmlDeclaration(x) then
      match FirstIndex(x, "\n")
      case Some(k) =>
        FirstNewline(x, k);
        x[k..]
      case None =>
        NoNewline(x);
        x
    else x
  }

  /** Where `strpos($x, "\n")` finds the newline, none comes before it. */
  lemma FirstNewline(x: string, k: nat)
    requires FirstIndex(x, "\n") == Some(k)
    ensures k < |x| && x[k] == '\n' && '\n' !in x[..k]
  {
    NewlineAt(x, k);
    NoNewlineBefore(x, k);
  }

  lemma NewlineAt(x: string, k: nat)
    requires OccursAt(x, "\n", k)
    ensures k < |x| && x[k] == '\n'
  {
    assert x[k..k + 1][0] == x[k];
  }

  lemma NoNewlineBefore(x: string, k: nat)
    requires k <= |x| && forall i :: 0 <= i < k ==> !OccursAt(x, "\n", i)
    ensures '\n' !in x[..k]
  {
    forall i | 0 <= i < k ensures x[..k][i] != '\n' {
      NotNewlineAt(x, i);
    }
  }

  lemma NotNewlineAt(x: string, i: nat)
    requires i < |x| && !OccursAt(x, "\n", i)
    ensures x[i] != '\n'
  {
    assert x[i..i + 1] == [x[i]];
  }

  /** When `strpos($x, "\n")` is false, the text holds no newline. */
  lemma NoNewline(x: string)
    requires FirstIndex(x, "\n") == None
    ensures '\n' !in x
  {
    forall i | 0 <= i < |x| ensures x[i] != '\n' {
      NotNewlineAt(x, i);
    }
  }

  /** Dropping the declaration keeps only a suffix, so it adds no occurrence. */
  lemma DeclarationStripKeepsAbsent(x: string, q: string)
    requires !Occurs(x, q)
    ensures !Occurs(StripXmlDeclaration(x), q)
  {
    if HasXmlDeclaration(x) && '\n' in x {
      var k :| 0 <= k < |x| && StripXmlDeclaration(x) == x[k..] && x[k] == '\n' && '\n' !in x[..k];
      NoOccurrenceInSuffix(x, q, k);
    }
  }

  /**
   * The text processing after the XSLT transformation: one `str_replace`
   * pass per namespace attribute, markers turned back into `--`, and the
   * XML declaration dropped.  No attribute is left whenever the pass itself
   * leaves none: un-escaping and the declaration strip bring none back.
   */
  function ExportOutput(xsltOutput: string): (r: string)
    ensures var stripped := StripNamespacesOnce(xsltOutput);
            !Occurs(stripped, EmptyNamespace) && !Occurs(stripped, XhtmlNamespace) ==>
              !Occurs(r, EmptyNamespace) && !Occurs(r, XhtmlNamespace)
  {
    var stripped := StripNamespacesOnce(xsltOutput);
    NamespacesHaveNoMinus();
    AfterStripStaysAbsent(stripped, EmptyNamespace);
    AfterStripStaysAbsent(stripped, XhtmlNamespace);
    StripXmlDeclaration(UnescapeMinus(stripped))
  }

  /**
   * Output without namespace attributes, markers or an XML declaration
   * passes through the post-processing unchanged.
   */
  lemma ExportOutputKeepsPlain(x: string)
    requires !Occurs(x, EmptyNamespace) && !Occurs(x, XhtmlNamespace)
    requires !Occurs(x, MinusMarker) && !HasXmlDeclaration(x)
    ensures ExportOutput(x) == x
  {
    StripOnceWithoutAttributes(x);
    ReplaceWithoutOccurrence(x, MinusMarker, "--");
  }

  /**
   * The single pass is what the export does, so the attribute that the
   * removal joins together reaches the exported text.
   */
  lemma ExportCanLeaveNamespace()
    ensures ExportOutput(" xmlns=" + EmptyNamespace + "\"\"") == EmptyNamespace
    ensures Occurs(ExportOutput(" xmlns=" + EmptyNamespace + "\"\""), EmptyNamespace)
  {
    var stripped := StripNamespacesOnce(" xmlns=" + EmptyNamespace + "\"\"");
    assert stripped == EmptyNamespace && Occurs(EmptyNamespace, EmptyNamespace) by {
      StripOnceCanLeaveNamespace();
    }
    assert UnescapeMinus(EmptyNamespace) == EmptyNamespace by {
      ShortHasNoOccurrence(EmptyNamespace, MinusMarker);
      ReplaceWithoutOccurrence(EmptyNamespace, MinusMarker, "--");
    }
    assert !HasXmlDeclaration(EmptyNamespace) by {
      assert AsciiLower(EmptyNamespace[..5])[0] == LowerChar(' ');
    }
  }

  /** Neither namespace attribute contains a `-`. */
  lemma NamespacesHaveNoMinus()
    ensures DisjointChars("--", EmptyNamespace) && DisjointChars("--", XhtmlNamespace)
  {
    assert '-' !in EmptyNamespace;
    assert '-' !in XhtmlNamespace;
  }

  /**
   * Neither un-escaping nor dropping the declaration brings back a namespace
   * attribute: `--` shares no character with one, and the declaration step
   * keeps a suffix.
   */
  lemma AfterStripStaysAbsent(stripped: string, q: string)
    requires DisjointChars("--", q)
    ensures !Occurs(stripped, q) ==> !Occurs(StripXmlDeclaration(UnescapeMinus(stripped)), q)
  {
    if !Occurs(stripped, q) {
      ReplaceCreatesNoOccurrence(stripped, MinusMarker, "--", q);
      DeclarationStripKeepsAbsent(UnescapeMinus(stripped), q);
    }
  }

  // ---------------------------------------------------------------------
  // Embedded images

  /**
   * A file of the book's file area: its name, whether `get_file` found it,
   * and the host's base64 encoding of its content.
   */
  datatype AreaFile = AreaFile(filename: string, found: bool, base64: string)

  /** `pathinfo($name, PATHINFO_EXTENSION)`: the text after the last dot, or "" without one. */
  function Extension(name: string): (ext: string)
    ensures '.' !in ext
    ensures |ext| <= |name| && ext == name[|name| - |ext|..]
  {
    if |name| == 0 || name[|name| - 1] == '.' then ""
    else if '.' !in name then ""
    else
      var front := Extension(name[..|name| - 1]);
      assert '.' in name[..|name| - 1];
      front + [name[|name| - 1]]
  }

  /** The extension of `base.ext` is `ext`. */
  lemma {:induction false} ExtensionOf(base: string, ext: string)
    requires '.' !in ext
    ensures Extension(base + "." + ext) == ext
    decreases |ext|
  {
    if |ext| == 0 {
      assert (base + "." + ext)[|base|] == '.';
    } else {
      var front := ext[..|ext| - 1];
      var last := ext[|ext| - 1];
      ExtensionOf(base, front);
      NameSplit(base, front, last);
      ExtensionStep(base + "." + front + [last]);
      assert front + [last] == ext;
    }
  }

  /** Peeling the last character off `base.ext`. */
  lemma NameSplit(base: string, front: string, last: char)
    requires last != '.'
    ensures base + "." + (front + [last]) == base + "." + front + [last]
    ensures '.' in base + "." + front
  {
    assert (base + "." + front)[|base|] == '.';
  }

  /** A last character other than a dot, with a dot before it, extends the extension. */
  lemma ExtensionStep(name: string)
    requires |name| > 0 && name[|name| - 1] != '.' && '.' in name[..|name| - 1]
    ensures Extension(name) == Extension(name[..|name| - 1]) + [name[|name| - 1]]
  {
  }

  predicate IsImageExtension(ext: string) {
    ext == "png" || ext == "jpg" || ext == "jpeg" || ext == "gif"
  }

  /** The MIME subtype: `jpg` is written `jpeg`, the others as they are. */
  function ImageType(ext: string): (t: string)
    ensures t == "jpeg" <==> ext == "jpg" || ext == "jpeg"
    ensures IsImageExtension(ext) ==> t == "png" || t == "jpeg" || t == "gif"
    ensures ext != "jpg" ==> t == ext
  {
    if ext == "jpg" then "jpeg" else ext
  }

  /** A file is embedded when its lower-cased extension is an image one and it was found. */
  predicate Embeddable(f: AreaFile) {
    IsImageExtension(AsciiLower(Extension(f.filename))) && f.found
  }

  function ImageTag(f: AreaFile): string {
    "<img title=\"" + f.filename + "\" src=\"data:image/" + ImageType(AsciiLower(Extension(f.filename)))
      + ";base64," + f.base64 + "\"/>"
  }

  /** The loop over the file area: one tag per embeddable file, in area order. */
  function ImageTags(files: seq<AreaFile>): string {
    if |files| == 0 then ""
    else (if Embeddable(files[0]) then ImageTag(files[0]) else "") + ImageTags(files[1..])
  }

  /** The embeddable files, in area order. */
  function EmbeddableFiles(files: seq<AreaFile>): (r: seq<AreaFile>)
    ensures forall f :: f in r <==> f in files && Embeddable(f)
  {
    Filter(files, Embeddable)
  }

  /** One tag per file, in order. */
  function TagsOf(files: seq<AreaFile>): string {
    if |files| == 0 then "" else ImageTag(files[0]) + TagsOf(files[1..])
  }

  /** The tags are exactly those of the embeddable files, in order. */
  lemma {:induction false} ImageTagsOfEmbeddable(files: seq<AreaFile>)
    ensures ImageTags(files) == TagsOf(EmbeddableFiles(files))
  {
    if |files| > 0 {
      ImageTagsOfEmbeddable(files[1..]);
      ImageTagsStep(files);
      if Embeddable(files[0]) {
        TagsOfCons(files[0], EmbeddableFiles(files[1..]));
      }
    }
  }

  /** The loop's first step: the first file's tag, if it is embedded, then the rest. */
  lemma ImageTagsStep(files: seq<AreaFile>)
    requires |files| > 0
    ensures ImageTags(files) == if Embeddable(files[0]) then ImageTag(files[0]) + ImageTags(files[1..])
                                else ImageTags(files[1..])
  {
    assert "" + ImageTags(files[1..]) == ImageTags(files[1..]);
  }

  lemma TagsOfCons(f: AreaFile, rest: seq<AreaFile>)
    ensures TagsOf([f] + rest) == ImageTag(f) + TagsOf(rest)
  {
    assert ([f] + rest)[0] == f && ([f] + rest)[1..] == rest;
  }

  /** Every tag has some text. */
  lemma ImageTagNonEmpty(f: AreaFile)
    ensures |ImageTag(f)| > 0
  {
  }

  /** No file of the area is embeddable: checked file by file, in area order. */
  predicate NoneEmbeddable(files: seq<AreaFile>) {
    |files| == 0 || (!Embeddable(files[0]) && NoneEmbeddable(files[1..]))
  }

  /** No tags at all exactly when no file is embeddable. */
  lemma {:induction false} ImageTagsEmpty(files: seq<AreaFile>)
    ensures ImageTags(files) == "" <==> NoneEmbeddable(files)
  {
    if |files| > 0 {
      ImageTagsEmpty(files[1..]);
      ImageTagsStep(files);
      ImageTagNonEmpty(files[0]);
    }
  }

  /**
   * `booktool_wordimport_base64_images`: the tags wrapped in an `ImageFile`
   * division, or the empty string when no file was embedded.
   */
  function Base64Images(files: seq<AreaFile>): (r: string)
    ensures r == "" <==> NoneEmbeddable(files)
    ensures r != "" ==> r == "<div class=\"ImageFile\">" + ImageTags(files) + "</div>"
  {
    ImageTagsEmpty(files);
    var tags := ImageTags(files);
    if tags != "" then "<div class=\"ImageFile\">" + tags + "</div>" else ""
  }

  /**
   * Every embedded file is written as `image/png`, `image/jpeg` or
   * `image/gif`, and as `image/jpeg` exactly when its lower-cased extension
   * is `jpg` or `jpeg`, whatever the case of the name.
   */
  lemma EmbeddedImageType(f: AreaFile)
    requires Embeddable(f)
    ensures var ext := AsciiLower(Extension(f.filename));
            var t := ImageType(ext);
            (t == "jpeg" <==> ext == "jpg" || ext == "jpeg")
            && (t == "png" || t == "jpeg" || t == "gif")
            && ImageTag(f) == "<img title=\"" + f.filename + "\" src=\"data:image/" + t + ";base64," + f.base64 + "\"/>"
  {
  }

  /** An upper-case `.JPG` file is embedded as `image/jpeg`. */
  lemma JpgIsJpeg(base: string, found: bool, data: string)
    ensures var f := AreaFile(base + ".JPG", found, data);
            ImageType(AsciiLower(Extension(f.filename))) == "jpeg" && (Embeddable(f) <==> found)
  {
    ExtensionOf(base, "JPG");
    assert base + ".JPG" == base + "." + "JPG";
    var l := AsciiLower("JPG");
    assert l[0] == 'j' && l[1] == 'p' && l[2] == 'g';
    assert l == "jpg";
  }
}
