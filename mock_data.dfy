/** The offline paper lookup of the front end (src/lib/mockData.ts): a
    constant list of papers and the case-insensitive exact match on title
    and author. */
module MockData {
  import opened Js

  datatype Paper = Paper(title: string, author: string, date: string)

  /** `{found: true, paper}` or `{found: false}`. */
  datatype SearchResult = Found(paper: Paper) | NotFound

  /** `mockPapers`. Each title written with `+` spells the source's
      title literal. */
  const MockPapers: seq<Paper> := [
    Paper("AI Ethics", "Jane Doe", "2023-01-15"),
    Paper("Machine Learning" + " in Healthcare", "John Smith", "2023-03-22"),
    Paper("Quantum Computing" + " Basics", "Alice Johnson", "2022-11-08"),
    Paper("Natural Language" + " Processing", "Bob Williams", "2023-06-30"),
    Paper("Deep Learning" + " Architectures", "Jane Doe", "2022-09-14"),
    Paper("Blockchain" + " Technology", "Charlie Brown", "2023-02-28"),
    Paper("Computer Vision" + " Applications", "Diana Ross", "2023-05-17"),
    Paper("Reinforcement" + " Learning", "Edward Chen", "2022-12-03")
  ]

  /** The predicate passed to `find`: the stored title and author,
      lowercased, equal the normalized inputs. */
  predicate PaperMatches(paper: Paper, normalizedTitle: string, normalizedAuthor: string) {
    ToLowerCase(paper.title) == normalizedTitle && ToLowerCase(paper.author) == normalizedAuthor
  }

  /** `Array.prototype.find`, as the position of the first matching paper. */
  function FindFirst(papers: seq<Paper>, normalizedTitle: string, normalizedAuthor: string): (r: Option<nat>)
    ensures r.Some? ==> r.value < |papers| && PaperMatches(papers[r.value], normalizedTitle, normalizedAuthor)
    ensures r.Some? ==> forall j | 0 <= j < r.value :: !PaperMatches(papers[j], normalizedTitle, normalizedAuthor)
    ensures r.None? ==> forall j | 0 <= j < |papers| :: !PaperMatches(papers[j], normalizedTitle, normalizedAuthor)
  {
    if papers == [] then None
    else if PaperMatches(papers[0], normalizedTitle, normalizedAuthor) then Some(0)
    else
      var rest := FindFirst(papers[1..], normalizedTitle, normalizedAuthor);
      if rest.Some? then Some(rest.value + 1) else None
  }

  /** `checkPaperExistence` over a list of papers: the inputs are
      lowercased and then trimmed, the stored fields only lowercased. */
  function CheckPaperExistenceIn(papers: seq<Paper>, title: string, author: string): (r: SearchResult)
    ensures r.Found? <==>
      exists i | 0 <= i < |papers| :: PaperMatches(papers[i], Trim(ToLowerCase(title)), Trim(ToLowerCase(author)))
    ensures r.Found? ==> exists i | 0 <= i < |papers| ::
      papers[i] == r.paper
      && PaperMatches(papers[i], Trim(ToLowerCase(title)), Trim(ToLowerCase(author)))
      && forall j | 0 <= j < i :: !PaperMatches(papers[j], Trim(ToLowerCase(title)), Trim(ToLowerCase(author)))
  {
    var normalizedTitle := Trim(ToLowerCase(title));
    var normalizedAuthor := Trim(ToLowerCase(author));
    var i := FindFirst(papers, normalizedTitle, normalizedAuthor);
    if i.Some? then Found(papers[i.value]) else NotFound
  }

  /** `checkPaperExistence(title, author)`, without the simulated delay: a
      found paper is one of the mock papers. */
  function CheckPaperExistence(title: string, author: string): (r: SearchResult)
    ensures r.Found? ==> r.paper in MockPapers
  {
    CheckPaperExistenceIn(MockPapers, title, author)
  }

  /** Only the case and the surrounding whitespace of the inputs are
      ignored: inputs that agree once lowercased and trimmed get the same
      answer. */
  lemma LookupIgnoresCaseAndEnds(title: string, author: string, title': string, author': string)
    requires Trim(ToLowerCase(title)) == Trim(ToLowerCase(title'))
    requires Trim(ToLowerCase(author)) == Trim(ToLowerCase(author'))
    ensures CheckPaperExistence(title, author) == CheckPaperExistence(title', author')
  {
  }

  lemma AiEthicsLower()
    ensures ToLowerCase("AI Ethics") == "ai ethics"
    ensures ToLowerCase("Jane Doe") == "jane doe"
  {
  }

  lemma TrimOfWord(s: string)
    requires s != [] && !IsWhitespace(s[0]) && !IsWhitespace(s[|s| - 1])
    ensures Trim(s) == s
  {
    TrimSpec(s);
    TrimOfTrimmed(s);
  }

  /** ("AI Ethics", "Jane Doe") finds the first mock paper, dated
      2023-01-15. */
  lemma AiEthicsIsFound()
    ensures CheckPaperExistence("AI Ethics", "Jane Doe") == Found(Paper("AI Ethics", "Jane Doe", "2023-01-15"))
  {
    AiEthicsLower();
    TrimOfWord("ai ethics");
    TrimOfWord("jane doe");
    assert PaperMatches(MockPapers[0], "ai ethics", "jane doe");
  }

  /** The title matches the first paper but the author is another paper's:
      nothing is found. */
  lemma MismatchedAuthorIsNotFound()
    ensures CheckPaperExistence("AI Ethics", "John Smith") == NotFound
  {
    AiEthicsLower();
    assert ToLowerCase("John Smith") == "john smith";
    TrimOfWord("ai ethics");
    TrimOfWord("john smith");
    forall i | 0 <= i < |MockPapers| ensures !PaperMatches(MockPapers[i], "ai ethics", "john smith") {
      assert |ToLowerCase(MockPapers[i].title)| == |MockPapers[i].title|;
      if i == 0 {
        assert ToLowerCase(MockPapers[0].author)[0] == 'j' && ToLowerCase(MockPapers[0].author)[1] == 'a';
      }
    }
  }
}
