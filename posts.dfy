/**
 * The post-indexing pipeline of a static blog (lib/posts.js): post ids are
 * derived from the file names in the posts directory, each file is read,
 * its frontmatter parsed and its Markdown body rendered to HTML, the pieces
 * are merged into one record, and the records are sorted by date and title.
 *
 * The two file-system reads are parameters: the directory listing is a
 * sequence of names and the files are a map from name to contents. The
 * frontmatter parser, the Markdown renderer and the comparison of two
 * frontmatter values are libraries outside the model; they are passed in
 * as functions, and the parser and renderer may fail.
 */
module Posts {
  import opened Wrappers
  import opened Compare
  import opened Sorting

  /** A JavaScript value held in a post record: a string, or any other value the frontmatter parser yields (a date, a number, a list ...). */
  datatype Value<Y> = Str(s: string) | Other(y: Y)

  /** A post record: an object from property names to values. */
  type Post<Y> = map<string, Value<Y>>

  /** What the frontmatter parser returns: the header's fields and the text after the header. */
  datatype Frontmatter<Y> = Frontmatter(data: map<string, Value<Y>>, content: string)

  /**
   * The libraries the pipeline calls: the frontmatter parser (None when it
   * throws), the Markdown-to-HTML renderer with syntax highlighting (None
   * when it rejects), and the comparison sortBy applies to two present key values.
   */
  datatype Libraries<!Y> = Libraries(
    matter: string -> Option<Frontmatter<Y>>,
    markdown: string -> Option<string>,
    compare: (Value<Y>, Value<Y>) -> Ordering)

  /** Why reading a post failed, with the file name involved. */
  datatype PostError = NotFound(fileName: string) | ParseError(fileName: string) | RenderError(fileName: string)

  /** The routing descriptor `{ params: { id } }` handed to the page generator. */
  datatype Params = Params(id: string)
  datatype StaticPath = StaticPath(params: Params)

  /** The extension of post files. */
  const Extension: string := ".md"

  // ---------------------------------------------------------------------------
  // Post ids and file names
  // ---------------------------------------------------------------------------

  /** The regular expression `\.md$` matches at position `i` of `s`: the literal `.md`, then the end of the input. */
  predicate MatchesAt(s: string, i: nat) {
    i + |Extension| <= |s| && s[i..i + |Extension|] == Extension && i + |Extension| == |s|
  }

  /** The leftmost position at or after `from` where the expression matches, as a regular-expression search finds it. */
  function FirstMatch(s: string, from: nat): (r: Option<nat>)
    decreases |s| + 1 - from
    ensures r.Some? ==> from <= r.value <= |s| && MatchesAt(s, r.value)
    ensures r.Some? ==> forall j :: from <= j < r.value ==> !MatchesAt(s, j)
    ensures r.None? ==> forall j :: from <= j <= |s| ==> !MatchesAt(s, j)
  {
    if from > |s| then None
    else if MatchesAt(s, from) then Some(from)
    else FirstMatch(s, from + 1)
  }

  /**
   * `fileName.replace(/\.md$/, "")`: the first match, if any, is replaced by
   * the empty string. Nothing but a final `.md` is ever removed.
   */
  function PostIdFromFileName(fileName: string): (id: string)
    ensures id == fileName || id + Extension == fileName
  {
    match FirstMatch(fileName, 0)
    case None => fileName
    case Some(i) =>
      assert fileName == fileName[..i] + Extension;
      fileName[..i] + fileName[i + |Extension|..]
  }

  /** The file name getPostData looks up for an id, `${id}.md`: a post file name that starts with the id. */
  function FileNameFromId(id: string): (fileName: string)
    ensures IsPostFileName(fileName) && |fileName| == |id| + |Extension| && fileName[..|id|] == id
  {
    id + Extension
  }

  /** The name ends in the post extension. */
  predicate IsPostFileName(fileName: string) {
    |fileName| >= |Extension| && fileName[|fileName| - |Extension|..] == Extension
  }

  /**
   * The id is the name with exactly one trailing `.md` removed, and a name
   * that does not end in `.md` is its own id.
   */
  lemma StripsOneTrailingExtension(fileName: string)
    ensures IsPostFileName(fileName) ==> PostIdFromFileName(fileName) + Extension == fileName
    ensures !IsPostFileName(fileName) ==> PostIdFromFileName(fileName) == fileName
  {
    var n := |fileName| - |Extension|;
    if IsPostFileName(fileName) {
      assert MatchesAt(fileName, n);
      var id := PostIdFromFileName(fileName);
      assert id == fileName[..n];
      assert id + Extension == fileName[..n] + fileName[n..];
    }
  }

  /** An id turned into a file name and back is the same id. */
  lemma {:induction false} IdRoundTrip(id: string)
    ensures PostIdFromFileName(FileNameFromId(id)) == id
  {
    var f := FileNameFromId(id);
    assert f[|f| - |Extension|..] == Extension;
    StripsOneTrailingExtension(f);
    assert PostIdFromFileName(f) == f[..|id|] == id;
  }

  /** A file name survives the trip to an id and back exactly when it ends in `.md`. */
  lemma {:induction false} FileNameRoundTrip(fileName: string)
    ensures FileNameFromId(PostIdFromFileName(fileName)) == fileName <==> IsPostFileName(fileName)
  {
    StripsOneTrailingExtension(fileName);
    var f := FileNameFromId(PostIdFromFileName(fileName));
    assert f[|f| - |Extension|..] == Extension;
  }

  /** Only one extension is stripped, so deriving an id twice can strip two. */
  lemma {:induction false} NotIdempotent()
    ensures PostIdFromFileName("a.md.md") == "a.md"
    ensures PostIdFromFileName("a.md") == "a"
  {
    StripsOneTrailingExtension("a.md.md");
    StripsOneTrailingExtension("a.md");
    assert IsPostFileName("a.md.md");
    assert IsPostFileName("a.md");
  }

  /**
   * Deriving an id from an id changes it again exactly when the file name
   * ended in `.md.md`: the function is not idempotent.
   */
  lemma {:induction false} DerivingTwice(fileName: string)
    ensures PostIdFromFileName(PostIdFromFileName(fileName)) != PostIdFromFileName(fileName) <==>
      |fileName| >= 2 * |Extension| && fileName[|fileName| - 2 * |Extension|..] == Extension + Extension
  {
    var id := PostIdFromFileName(fileName);
    StripsOneTrailingExtension(fileName);
    StripsOneTrailingExtension(id);
    var n := |fileName|;
    if IsPostFileName(fileName) {
      assert fileName == id + Extension;
      if IsPostFileName(id) {
        assert fileName[n - 2 * |Extension|..] == id[|id| - |Extension|..] + Extension;
      } else if n >= 2 * |Extension| {
        assert fileName[n - 2 * |Extension|..] == id[|id| - |Extension|..] + Extension;
        assert id[|id| - |Extension|..] != Extension;
      }
    } else if n >= 2 * |Extension| {
      assert fileName[n - |Extension|..] == fileName[n - 2 * |Extension|..][|Extension|..];
    }
  }

  // ---------------------------------------------------------------------------
  // One post
  // ---------------------------------------------------------------------------

  /**
   * `{ id, contentHtml, ...data }`: the frontmatter's fields are spread last,
   * so each of them is kept, and a frontmatter `id` or `contentHtml`
   * replaces the derived one.
   */
  function AssembleRecord<Y>(id: string, contentHtml: string, data: map<string, Value<Y>>): (r: Post<Y>)
    ensures r.Keys == data.Keys + {"id", "contentHtml"}
    ensures forall k :: k in data ==> r[k] == data[k]
    ensures "id" !in data ==> r["id"] == Str(id)
    ensures "contentHtml" !in data ==> r["contentHtml"] == Str(contentHtml)
  {
    map["id" := Str(id), "contentHtml" := Str(contentHtml)] + data
  }

  /**
   * postDataFromFileName: read the file, parse its frontmatter, render its
   * body, assemble the record. A missing file, a header the parser rejects
   * and a body the renderer rejects each fail, naming the file; otherwise the
   * record combines the derived id, the rendered HTML and the frontmatter.
   */
  function PostDataFromFileName<Y>(fileName: string, files: map<string, string>, libs: Libraries<Y>): (r: Result<Post<Y>, PostError>)
    ensures fileName !in files ==> r == Failure(NotFound(fileName))
    ensures fileName in files && libs.matter(files[fileName]).None? ==> r == Failure(ParseError(fileName))
    ensures fileName in files && libs.matter(files[fileName]).Some? ==>
      var parsed := libs.matter(files[fileName]).value;
      && (libs.markdown(parsed.content).None? ==> r == Failure(RenderError(fileName)))
      && (libs.markdown(parsed.content).Some? ==>
            r == Success(AssembleRecord(PostIdFromFileName(fileName), libs.markdown(parsed.content).value, parsed.data)))
  {
    if fileName !in files then Failure(NotFound(fileName))
    else
      match libs.matter(files[fileName])
      case None => Failure(ParseError(fileName))
      case Some(parsed) =>
        match libs.markdown(parsed.content)
        case None => Failure(RenderError(fileName))
        case Some(html) => Success(AssembleRecord(PostIdFromFileName(fileName), html, parsed.data))
  }

  /**
   * getPostData: the record of the post with the given id, read from exactly
   * `${id}.md`. It fails as that file's read, parse or render fails; on
   * success the record's derived id is the requested id.
   */
  function GetPostData<Y>(id: string, files: map<string, string>, libs: Libraries<Y>): (r: Result<Post<Y>, PostError>)
    ensures FileNameFromId(id) !in files ==> r == Failure(NotFound(FileNameFromId(id)))
    ensures FileNameFromId(id) in files && libs.matter(files[FileNameFromId(id)]).None? ==> r == Failure(ParseError(FileNameFromId(id)))
    ensures FileNameFromId(id) in files && libs.matter(files[FileNameFromId(id)]).Some? ==>
      var parsed := libs.matter(files[FileNameFromId(id)]).value;
      && (libs.markdown(parsed.content).None? ==> r == Failure(RenderError(FileNameFromId(id))))
      && (libs.markdown(parsed.content).Some? ==>
            r == Success(AssembleRecord(id, libs.markdown(parsed.content).value, parsed.data)))
  {
    IdRoundTrip(id);
    PostDataFromFileName(FileNameFromId(id), files, libs)
  }

  /**
   * getPostData succeeds exactly when `${id}.md` exists, parses and renders.
   * Then the record holds every frontmatter field; its `id` is the requested
   * id and its `contentHtml` the rendered body, unless the frontmatter sets them.
   */
  lemma {:induction false} GetPostDataReadsIdFile<Y>(id: string, files: map<string, string>, libs: Libraries<Y>)
    ensures FileNameFromId(id) !in files ==> GetPostData(id, files, libs) == Failure(NotFound(FileNameFromId(id)))
    ensures GetPostData(id, files, libs).Success? <==>
      && FileNameFromId(id) in files
      && libs.matter(files[FileNameFromId(id)]).Some?
      && libs.markdown(libs.matter(files[FileNameFromId(id)]).value.content).Some?
    ensures GetPostData(id, files, libs).Success? ==>
      var parsed := libs.matter(files[FileNameFromId(id)]).value;
      var html := libs.markdown(parsed.content).value;
      var post := GetPostData(id, files, libs).value;
      && (forall k :: k in parsed.data ==> k in post && post[k] == parsed.data[k])
      && ("id" !in parsed.data ==> post["id"] == Str(id))
      && ("contentHtml" !in parsed.data ==> post["contentHtml"] == Str(html))
  {
  }

  // ---------------------------------------------------------------------------
  // The directory
  // ---------------------------------------------------------------------------

  /** getPostIds: one routing descriptor per directory entry, in directory order. */
  function GetPostIds(dir: seq<string>): (paths: seq<StaticPath>)
    ensures |paths| == |dir|
    ensures forall i :: 0 <= i < |dir| ==> paths[i] == StaticPath(Params(PostIdFromFileName(dir[i])))
  {
    if dir == [] then [] else [StaticPath(Params(PostIdFromFileName(dir[0])))] + GetPostIds(dir[1..])
  }

  /**
   * What getSortedPosts does for one directory entry,
   * `getPostData(postIdFromFileName(fileName))`: it reads the entry itself
   * when the entry ends in `.md`, and the entry with `.md` appended otherwise.
   */
  function PostForEntry<Y>(fileName: string, files: map<string, string>, libs: Libraries<Y>): (r: Result<Post<Y>, PostError>)
    ensures IsPostFileName(fileName) ==> r == PostDataFromFileName(fileName, files, libs)
    ensures !IsPostFileName(fileName) ==> r == PostDataFromFileName(FileNameFromId(fileName), files, libs)
  {
    FileNameRoundTrip(fileName);
    StripsOneTrailingExtension(fileName);
    GetPostData(PostIdFromFileName(fileName), files, libs)
  }

  /**
   * The records of all entries, in directory order, as `Promise.all` gathers
   * them: the whole read fails when any one entry fails, and then no list is returned.
   */
  function ReadPosts<Y>(dir: seq<string>, files: map<string, string>, libs: Libraries<Y>): (r: Result<seq<Post<Y>>, PostError>)
    ensures r.Success? <==> forall i :: 0 <= i < |dir| ==> PostForEntry(dir[i], files, libs).Success?
    ensures r.Success? ==> |r.value| == |dir|
    ensures r.Success? ==> forall i :: 0 <= i < |dir| ==> PostForEntry(dir[i], files, libs) == Success(r.value[i])
    ensures r.Failure? ==> exists i :: 0 <= i < |dir| && PostForEntry(dir[i], files, libs) == Failure(r.error)
  {
    All(dir, (fileName: string) => PostForEntry(fileName, files, libs))
  }

  /**
   * `Promise.all(xs.map(read))`: every element's result when all of them
   * succeed, in order; otherwise the error of a failing element.
   */
  function All<T, E>(xs: seq<string>, read: string -> Result<T, E>): (r: Result<seq<T>, E>)
    ensures r.Success? <==> forall i :: 0 <= i < |xs| ==> read(xs[i]).Success?
    ensures r.Success? ==> |r.value| == |xs|
    ensures r.Success? ==> forall i :: 0 <= i < |xs| ==> read(xs[i]) == Success(r.value[i])
    ensures r.Failure? ==> exists i :: 0 <= i < |xs| && read(xs[i]) == Failure(r.error)
  {
    if xs == [] then Success([])
    else
      match read(xs[0])
      case Failure(e) => Failure(e)
      case Success(x) =>
        assert forall i :: 1 <= i < |xs| ==> xs[1..][i - 1] == xs[i];
        match All(xs[1..], read)
        case Failure(e) => Failure(e)
        case Success(rest) => Success([x] + rest)
  }

  /** The value of a record's property, None when the record does not have it. */
  function Get<Y>(post: Post<Y>, key: string): Option<Value<Y>> {
    if key in post then Some(post[key]) else None
  }

  function DateOf<Y>(post: Post<Y>): Option<Value<Y>> { Get(post, "date") }

  function TitleOf<Y>(post: Post<Y>): Option<Value<Y>> { Get(post, "title") }

  /** The order of `_sortBy(posts, ["date", "title"])`: by date, then by title; a missing key sorts last. */
  function ByDateThenTitle<Y(!new)>(cmp: (Value<Y>, Value<Y>) -> Ordering): (c: (Post<Y>, Post<Y>) -> Ordering)
    ensures forall p, q ::
              c(p, q) == if MissingLast(cmp)(DateOf(p), DateOf(q)) == Equal
                         then MissingLast(cmp)(TitleOf(p), TitleOf(q))
                         else MissingLast(cmp)(DateOf(p), DateOf(q))
  {
    Lex(ByKey(MissingLast(cmp), DateOf), ByKey(MissingLast(cmp), TitleOf))
  }

  /** Ascending by date, ascending by title among equal dates; a post without the key comes after the posts with it. */
  ghost predicate OrderedByDateThenTitle<Y>(cmp: (Value<Y>, Value<Y>) -> Ordering, posts: seq<Post<Y>>) {
    forall i, j :: 0 <= i < j < |posts| ==>
      && MissingLast(cmp)(DateOf(posts[i]), DateOf(posts[j])) != Greater
      && (MissingLast(cmp)(DateOf(posts[i]), DateOf(posts[j])) == Equal ==>
            MissingLast(cmp)(TitleOf(posts[i]), TitleOf(posts[j])) != Greater)
  }

  lemma {:induction false} ByDateThenTitlePreorder<Y(!new)>(cmp: (Value<Y>, Value<Y>) -> Ordering)
    requires TotalPreorder(cmp)
    ensures TotalPreorder(ByDateThenTitle(cmp))
  {
    MissingLastPreorder(cmp);
    ByKeyPreorder(MissingLast(cmp), DateOf<Y>);
    ByKeyPreorder(MissingLast(cmp), TitleOf<Y>);
    LexPreorder(ByKey(MissingLast(cmp), DateOf<Y>), ByKey(MissingLast(cmp), TitleOf<Y>));
  }

  /** Sorting the records by date and title orders them by date, and by title among equal dates. */
  lemma {:induction false} SortedPostsOrdered<Y(!new)>(cmp: (Value<Y>, Value<Y>) -> Ordering, posts: seq<Post<Y>>, out: seq<Post<Y>>)
    requires out == SortBy(ByDateThenTitle(cmp), posts)
    ensures TotalPreorder(cmp) ==> OrderedByDateThenTitle(cmp, out)
  {
    if TotalPreorder(cmp) {
      var c := ByDateThenTitle(cmp);
      ByDateThenTitlePreorder(cmp);
      SortByOrderedAndStable(c, posts);
      forall i, j | 0 <= i < j < |out| ensures c(out[i], out[j]) != Greater {
      }
    }
  }

  /**
   * Sorting the records is stable: each sorted record is the record at a
   * distinct input position, and records with the same date and the same
   * title keep their input order.
   */
  lemma {:induction false} SortedPostsStable<Y(!new)>(cmp: (Value<Y>, Value<Y>) -> Ordering, posts: seq<Post<Y>>, out: seq<Post<Y>>)
    requires TotalPreorder(cmp)
    requires out == SortBy(ByDateThenTitle(cmp), posts)
    ensures var o := Origins(ByDateThenTitle(cmp), posts);
      && |o| == |out| == |posts|
      && (forall i :: 0 <= i < |out| ==> o[i] < |posts| && out[i] == posts[o[i]])
      && (forall i, j :: 0 <= i < |out| && 0 <= j < |out| && i != j ==> o[i] != o[j])
      && (forall i, j ::
            (0 <= i < j < |out|
              && MissingLast(cmp)(DateOf(out[i]), DateOf(out[j])) == Equal
              && MissingLast(cmp)(TitleOf(out[i]), TitleOf(out[j])) == Equal) ==> o[i] < o[j])
  {
    var c := ByDateThenTitle(cmp);
    ByDateThenTitlePreorder(cmp);
    SortByOrigins(c, posts);
    OriginsDistinct(c, posts);
    SortByOrderedAndStable(c, posts);
  }

  /**
   * getSortedPosts: the records of all entries, ordered by date and then
   * title. It fails as a whole when any entry fails; otherwise it returns
   * exactly the entries' records, one per entry, in date and title order.
   */
  function GetSortedPosts<Y(!new)>(dir: seq<string>, files: map<string, string>, libs: Libraries<Y>): (r: Result<seq<Post<Y>>, PostError>)
    ensures r.Success? <==> forall i :: 0 <= i < |dir| ==> PostForEntry(dir[i], files, libs).Success?
    ensures r.Failure? ==> exists i :: 0 <= i < |dir| && PostForEntry(dir[i], files, libs) == Failure(r.error)
    ensures r.Success? ==> |r.value| == |dir| && multiset(r.value) == multiset(ReadPosts(dir, files, libs).value)
    ensures r.Success? && TotalPreorder(libs.compare) ==> OrderedByDateThenTitle(libs.compare, r.value)
  {
    match ReadPosts(dir, files, libs)
    case Failure(e) => Failure(e)
    case Success(posts) =>
      SortedPostsOrdered(libs.compare, posts, SortBy(ByDateThenTitle(libs.compare), posts));
      Success(SortBy(ByDateThenTitle(libs.compare), posts))
  }

  /**
   * The listing is stable with respect to the directory: each listed post is
   * the record of a distinct directory entry, and posts with the same date
   * and title appear in the order of their entries in the directory.
   */
  lemma {:induction false} SortedListingStable<Y(!new)>(dir: seq<string>, files: map<string, string>, libs: Libraries<Y>, out: seq<Post<Y>>)
    requires TotalPreorder(libs.compare)
    requires GetSortedPosts(dir, files, libs) == Success(out)
    ensures var o := Origins(ByDateThenTitle(libs.compare), ReadPosts(dir, files, libs).value);
      && |o| == |out| == |dir|
      && (forall i :: 0 <= i < |out| ==> o[i] < |dir| && PostForEntry(dir[o[i]], files, libs) == Success(out[i]))
      && (forall i, j :: 0 <= i < |out| && 0 <= j < |out| && i != j ==> o[i] != o[j])
      && (forall i, j ::
            (0 <= i < j < |out|
              && MissingLast(libs.compare)(DateOf(out[i]), DateOf(out[j])) == Equal
              && MissingLast(libs.compare)(TitleOf(out[i]), TitleOf(out[j])) == Equal) ==> o[i] < o[j])
  {
    assert ReadPosts(dir, files, libs).Success?;
    var posts := ReadPosts(dir, files, libs).value;
    assert out == SortBy(ByDateThenTitle(libs.compare), posts);
    SortedPostsStable(libs.compare, posts, out);
    var o := Origins(ByDateThenTitle(libs.compare), posts);
    forall i | 0 <= i < |out|
      ensures o[i] < |dir| && PostForEntry(dir[o[i]], files, libs) == Success(out[i])
    {
      assert out[i] == posts[o[i]];
    }
  }

  /**
   * A record carries the route `route` as its `id`: the file of that route
   * was read and parsed, and the record's `id` is the route unless the
   * frontmatter sets its own `id`, whose value it then carries.
   */
  ghost predicate CarriesRoutedId<Y>(route: string, files: map<string, string>, libs: Libraries<Y>, post: Post<Y>) {
    && FileNameFromId(route) in files
    && libs.matter(files[FileNameFromId(route)]).Some?
    && "id" in post
    && var data := libs.matter(files[FileNameFromId(route)]).value.data;
    && ("id" !in data ==> post["id"] == Str(route))
    && ("id" in data ==> post["id"] == data["id"])
  }

  /**
   * The link the index page builds from a listed post's `id` is the route
   * getPostIds lists for the same directory entry, unless the entry's
   * frontmatter sets its own `id`.
   */
  lemma {:induction false} ListedIdIsRoutedId<Y(!new)>(dir: seq<string>, files: map<string, string>, libs: Libraries<Y>, out: seq<Post<Y>>)
    requires TotalPreorder(libs.compare)
    requires GetSortedPosts(dir, files, libs) == Success(out)
    ensures var o := Origins(ByDateThenTitle(libs.compare), ReadPosts(dir, files, libs).value);
      && |o| == |out|
      && forall i :: 0 <= i < |out| ==> o[i] < |dir| && CarriesRoutedId(GetPostIds(dir)[o[i]].params.id, files, libs, out[i])
  {
    SortedListingStable(dir, files, libs, out);
    var o := Origins(ByDateThenTitle(libs.compare), ReadPosts(dir, files, libs).value);
    forall i | 0 <= i < |out|
      ensures o[i] < |dir| && CarriesRoutedId(GetPostIds(dir)[o[i]].params.id, files, libs, out[i])
    {
      EntryIdIsRoutedId(dir, files, libs, o[i], out[i]);
    }
  }

  /** The record built for a directory entry carries the id getPostIds routes for it, unless its frontmatter sets one. */
  lemma {:induction false} EntryIdIsRoutedId<Y>(dir: seq<string>, files: map<string, string>, libs: Libraries<Y>, k: nat, post: Post<Y>)
    requires k < |dir| && PostForEntry(dir[k], files, libs) == Success(post)
    ensures CarriesRoutedId(GetPostIds(dir)[k].params.id, files, libs, post)
  {
    var route := GetPostIds(dir)[k].params.id;
    assert PostForEntry(dir[k], files, libs) == GetPostData(route, files, libs);
    GetPostDataReadsIdFile(route, files, libs);
  }

  /**
   * The file read for a directory entry: the entry itself when it ends in
   * `.md`; otherwise the entry with `.md` appended, while getPostIds lists
   * the entry unchanged. When that file is absent the entry fails with
   * not-found, and with it the whole listing (GetSortedPosts).
   */
  lemma {:induction false} EntryFileLookedUp<Y>(dir: seq<string>, files: map<string, string>, libs: Libraries<Y>, i: nat)
    requires i < |dir|
    ensures IsPostFileName(dir[i]) ==>
      && FileNameFromId(GetPostIds(dir)[i].params.id) == dir[i]
      && PostForEntry(dir[i], files, libs) == PostDataFromFileName(dir[i], files, libs)
    ensures !IsPostFileName(dir[i]) ==>
      && GetPostIds(dir)[i].params.id == dir[i]
      && PostForEntry(dir[i], files, libs) == PostDataFromFileName(FileNameFromId(dir[i]), files, libs)
    ensures !IsPostFileName(dir[i]) && FileNameFromId(dir[i]) !in files ==>
      PostForEntry(dir[i], files, libs) == Failure(NotFound(FileNameFromId(dir[i])))
  {
    FileNameRoundTrip(dir[i]);
    StripsOneTrailingExtension(dir[i]);
  }
}
