/**
 * A blog post and `parse_post`, which turns one Markdown file with a YAML
 * front-matter block into a post.
 *
 * Three collaborators of `parse_post` are outside the model and enter as
 * parameters: the contents `fs::read_to_string` returned (`None` when the
 * read failed), the YAML decoder `serde_yaml::from_str` (`None` when the
 * block does not decode into a `FrontMatter`) and the Markdown renderer
 * `pulldown_cmark`'s `push_html`, which cannot fail.
 */
module Post {
  import opened Wrappers
  import opened Text
  import opened Split
  import opened Paths

  /** The YAML front matter of a post. */
  datatype FrontMatter = FrontMatter(title: string, date: string, tags: Option<seq<string>>)

  datatype Post = Post(slug: string, frontmatter: FrontMatter, content: string, html: string)

  /** No two posts of `posts` share a slug. */
  predicate DistinctSlugs(posts: seq<Post>) {
    forall i, j :: 0 <= i < j < |posts| ==> posts[i].slug != posts[j].slug
  }

  /** The front-matter delimiter. */
  const Delimiter: string := "---"

  /**
   * `parse_post`: split the text at its first two delimiters into preamble,
   * front matter and body; trim the body; decode the front matter; render
   * the trimmed body; take the file stem as the slug. Any failure on the
   * way gives `None`.
   */
  function ParsePost(path: string, raw: Option<string>,
                     decodeYaml: string -> Option<FrontMatter>,
                     renderHtml: string -> string): Option<Post>
  {
    match raw
    case None => None
    case Some(text) =>
      var parts := SplitN(text, 3, Delimiter);
      if |parts| < 3 then None
      else
        var content := Trim(parts[2]);
        match decodeYaml(parts[1])
        case None => None
        case Some(frontmatter) =>
          var html := renderHtml(content);
          match FileStem(path)
          case None => None
          case Some(slug) => Some(Post(slug, frontmatter, content, html))
  }

  /**
   * The pieces of a file: `i` is the first delimiter and `j` the first
   * after it; the front matter lies between them and the body after `j`.
   */
  predicate Delimiters(text: string, i: nat, j: nat) {
    && Find(text, Delimiter) == Some(i)
    && FindFrom(text, Delimiter, i + |Delimiter|) == Some(j)
  }

  lemma SplitOfPost(text: string)
    ensures |SplitN(text, 3, Delimiter)| == 3 <==> exists i: nat, j: nat :: TwoMatches(text, Delimiter, i, j)
    ensures |SplitN(text, 3, Delimiter)| == 3 ==>
      var i, j := Find(text, Delimiter).value, FindFrom(text, Delimiter, Find(text, Delimiter).value + 3).value;
      && Delimiters(text, i, j)
      && SplitN(text, 3, Delimiter) == [text[..i], text[i + 3..j], text[j + 3..]]
  {
    SplitThree(text, Delimiter);
    SplitThreeCount(text, Delimiter);
  }

  /** The three pieces of a file, given its first two delimiters. */
  lemma DelimitedSplit(text: string, i: nat, j: nat)
    requires Delimiters(text, i, j)
    ensures i + 3 <= j <= |text| - 3
    ensures SplitN(text, 3, Delimiter) == [text[..i], text[i + 3..j], text[j + 3..]]
  {
    SplitThree(text, Delimiter);
  }

  lemma FieldsOfSplit(path: string, text: string, i: nat, j: nat,
                      decodeYaml: string -> Option<FrontMatter>,
                      renderHtml: string -> string)
    requires i + 3 <= j <= |text| - 3
    requires SplitN(text, 3, Delimiter) == [text[..i], text[i + 3..j], text[j + 3..]]
    requires ParsePost(path, Some(text), decodeYaml, renderHtml).Some?
    ensures var p := ParsePost(path, Some(text), decodeYaml, renderHtml).value;
      && Some(p.frontmatter) == decodeYaml(text[i + 3..j])
      && p.content == Trim(text[j + 3..])
      && p.html == renderHtml(p.content)
      && Some(p.slug) == FileStem(path)
  {
  }

  /**
   * A file is rejected unless it holds two non-overlapping delimiters; the
   * preamble before the first one is thrown away.
   */
  lemma RejectsWithoutTwoDelimiters(path: string, text: string,
                                    decodeYaml: string -> Option<FrontMatter>,
                                    renderHtml: string -> string)
    requires forall i: nat, j: nat :: !TwoMatches(text, Delimiter, i, j)
    ensures ParsePost(path, Some(text), decodeYaml, renderHtml) == None
  {
    SplitOfPost(text);
  }

  lemma SuccessOfSplit(path: string, text: string, i: nat, j: nat,
                       decodeYaml: string -> Option<FrontMatter>,
                       renderHtml: string -> string)
    requires i + 3 <= j <= |text| - 3
    requires SplitN(text, 3, Delimiter) == [text[..i], text[i + 3..j], text[j + 3..]]
    ensures ParsePost(path, Some(text), decodeYaml, renderHtml).Some? <==>
      decodeYaml(text[i + 3..j]).Some? && FileStem(path).Some?
  {
  }

  lemma NoDelimitersNoSplit(text: string)
    requires forall i: nat, j: nat :: !Delimiters(text, i, j)
    ensures |SplitN(text, 3, Delimiter)| < 3
  {
    SplitThree(text, Delimiter);
    match Find(text, Delimiter)
    case None =>
    case Some(i) =>
      match FindFrom(text, Delimiter, i + 3)
      case None =>
      case Some(j) =>
        assert Delimiters(text, i, j);
  }

  lemma FailureOfSplit(path: string, text: string,
                       decodeYaml: string -> Option<FrontMatter>,
                       renderHtml: string -> string)
    requires |SplitN(text, 3, Delimiter)| < 3
    ensures ParsePost(path, Some(text), decodeYaml, renderHtml) == None
  {
  }

  /**
   * Exactly when `parse_post` succeeds: the file was read, it holds two
   * delimiters, the text between the first two decodes, and the path has
   * a file stem.
   */
  lemma ParsePostSucceeds(path: string, raw: Option<string>,
                          decodeYaml: string -> Option<FrontMatter>,
                          renderHtml: string -> string)
    ensures ParsePost(path, raw, decodeYaml, renderHtml).Some? <==>
      && raw.Some?
      && (exists i: nat, j: nat :: Delimiters(raw.value, i, j) && decodeYaml(raw.value[i + 3..j]).Some?)
      && FileStem(path).Some?
  {
    if raw.Some? {
      var text := raw.value;
      if exists i: nat, j: nat :: Delimiters(text, i, j) {
        var i: nat, j: nat :| Delimiters(text, i, j);
        DelimitedSplit(text, i, j);
        SuccessOfSplit(path, text, i, j, decodeYaml, renderHtml);
        forall i': nat, j': nat | Delimiters(text, i', j') ensures i' == i && j' == j {
        }
        assert (exists i': nat, j': nat :: Delimiters(text, i', j') && decodeYaml(text[i' + 3..j']).Some?)
           <==> decodeYaml(text[i + 3..j]).Some?;
      } else {
        NoDelimitersNoSplit(text);
        FailureOfSplit(path, text, decodeYaml, renderHtml);
      }
    }
  }

  /**
   * What a parsed post holds: the front matter decoded from the text
   * between the first two delimiters, the trimmed text after the second
   * (later delimiters included) as content, its rendering as html, and
   * the file stem as slug.
   */
  lemma ParsePostFields(path: string, text: string, i: nat, j: nat,
                        decodeYaml: string -> Option<FrontMatter>,
                        renderHtml: string -> string)
    requires Delimiters(text, i, j)
    requires ParsePost(path, Some(text), decodeYaml, renderHtml).Some?
    ensures var p := ParsePost(path, Some(text), decodeYaml, renderHtml).value;
      && Some(p.frontmatter) == decodeYaml(text[i + 3..j])
      && p.content == Trim(text[j + 3..])
      && p.html == renderHtml(p.content)
      && Some(p.slug) == FileStem(path)
  {
    DelimitedSplit(text, i, j);
    FieldsOfSplit(path, text, i, j, decodeYaml, renderHtml);
  }

  /**
   * A parsed post's content has no whitespace at either end, and it is a
   * contiguous slice of the text after the second delimiter with only
   * whitespace cut from around it.
   */
  lemma ParsePostContent(path: string, text: string, i: nat, j: nat,
                         decodeYaml: string -> Option<FrontMatter>,
                         renderHtml: string -> string)
    requires Delimiters(text, i, j)
    requires ParsePost(path, Some(text), decodeYaml, renderHtml).Some?
    ensures j + 3 <= |text|
    ensures TrimmedSliceOf(ParsePost(path, Some(text), decodeYaml, renderHtml).value.content, text[j + 3..])
  {
    DelimitedSplit(text, i, j);
    ParsePostFields(path, text, i, j, decodeYaml, renderHtml);
    var body := text[j + 3..];
    assert ParsePost(path, Some(text), decodeYaml, renderHtml).value.content == Trim(body);
    TrimSlice(body);
  }

  /** The slug of a parsed post is its file's stem. */
  lemma ParsePostSlug(path: string, raw: Option<string>,
                      decodeYaml: string -> Option<FrontMatter>,
                      renderHtml: string -> string)
    requires ParsePost(path, raw, decodeYaml, renderHtml).Some?
    ensures Some(ParsePost(path, raw, decodeYaml, renderHtml).value.slug) == FileStem(path)
  {
  }
}
