/**
 * The URL resolver of the `navigate` handler: the blank check, trimming,
 * the URL-or-search classification, the search rewrite and the `https://`
 * prefix.
 */
module Resolver {
  import opened Wrappers
  import opened Text
  import opened UriCodec

  /** The sentinel meaning "clear the embedded view". */
  const BlankUrl := "about:blank"
  /** The scheme added to an address written without one. */
  const SecureScheme := "https://"
  /** Where a search query is sent (`https://www.google.com/search?q=`); the encoded query follows. */
  const SearchEndpoint := SecureScheme + "www.google.com/search?q="

  /**
   * The blank check, made on the input as received (untrimmed): absent
   * (`undefined` or `null`), empty, or exactly "about:blank".
   */
  predicate IsBlankInput(input: Option<string>)
  {
    input.None? || input.value == "" || input.value == BlankUrl
  }

  /** Starts with `http://` or `https://`. */
  predicate HasScheme(s: string)
  {
    StartsWith(s, "http://") || StartsWith(s, "https://")
  }

  /**
   * The test `/^(https?:\/\/)|(www\.)|(\w+\.\w+)/`. The `^` binds to the
   * first alternative only, so `www.` and `word.word` count wherever they
   * occur.
   */
  predicate ClassifiesAsUrl(s: string)
  {
    HasScheme(s) || Contains(s, "www.") || HasWordDotWord(s)
  }

  /**
   * Resolution of a non-blank input: a search URL for what does not look
   * like a URL, the input itself when it carries a scheme, and `https://`
   * in front of it otherwise.
   */
  function ResolveAddress(raw: string): string
  {
    var t := Trim(raw);
    if !ClassifiesAsUrl(t) then
      SearchEndpoint + EncodeUriComponent(t)
    else if HasScheme(t) then
      t
    else
      SecureScheme + t
  }

  /** Every resolved address carries a scheme. */
  lemma ResolveAddressHasScheme(raw: string)
    ensures HasScheme(ResolveAddress(raw))
  {
    var t := Trim(raw);
    if !ClassifiesAsUrl(t) {
      SearchHasScheme(EncodeUriComponent(t));
    } else if !HasScheme(t) {
      SchemePrefixed(t);
    }
  }

  /** Whatever follows it, `https://` in front makes a scheme. */
  lemma SchemePrefixed(rest: string)
    ensures HasScheme(SecureScheme + rest)
  {
    assert (SecureScheme + rest)[..|SecureScheme|] == SecureScheme;
  }

  /** A search URL carries the endpoint's scheme. */
  lemma SearchHasScheme(query: string)
    ensures HasScheme(SearchEndpoint + query)
  {
    SchemePrefixed("www.google.com/search?q=" + query);
    assert SearchEndpoint + query == SecureScheme + ("www.google.com/search?q=" + query);
  }

  /** What an input resolves to: the blank sentinel or an address to load. */
  datatype Target = Blank | Address(url: string)

  function Resolve(input: Option<string>): (target: Target)
    ensures target == Blank <==> IsBlankInput(input)
    ensures target.Address? ==> HasScheme(target.url)
  {
    if IsBlankInput(input) then
      Blank
    else
      ResolveAddressHasScheme(input.value);
      Address(ResolveAddress(input.value))
  }

  /** A search rewrite starts with the endpoint, and decoding what follows gives back the trimmed input. */
  lemma SearchQueryRoundTrip(raw: string)
    requires !ClassifiesAsUrl(Trim(raw))
    ensures StartsWith(ResolveAddress(raw), SearchEndpoint)
    ensures DecodeUriComponent(ResolveAddress(raw)[|SearchEndpoint|..]) == Some(Trim(raw))
  {
    var url := ResolveAddress(raw);
    assert url[..|SearchEndpoint|] == SearchEndpoint;
    assert url[|SearchEndpoint|..] == EncodeUriComponent(Trim(raw));
    DecodeEncode(Trim(raw));
  }

  /** An input that carries a scheme comes back trimmed and otherwise unchanged. */
  lemma SchemeInputKept(raw: string)
    requires HasScheme(Trim(raw))
    ensures ResolveAddress(raw) == Trim(raw)
  {
  }

  /**
   * Any other URL gets exactly `https://` in front, after which there is no
   * second scheme.
   */
  lemma BareUrlGetsOneScheme(raw: string)
    requires ClassifiesAsUrl(Trim(raw)) && !HasScheme(Trim(raw))
    ensures StartsWith(ResolveAddress(raw), SecureScheme)
    ensures ResolveAddress(raw)[|SecureScheme|..] == Trim(raw)
    ensures !HasScheme(ResolveAddress(raw)[|SecureScheme|..])
  {
    var url := ResolveAddress(raw);
    assert url[..|SecureScheme|] == SecureScheme;
    assert url[|SecureScheme|..] == Trim(raw);
  }

  /** Resolution of a non-blank input depends only on its trimmed form. */
  lemma ResolveAddressIgnoresPadding(raw: string)
    ensures ResolveAddress(Trim(raw)) == ResolveAddress(raw)
  {
    TrimIdempotent(raw);
  }

  /**
   * The blank check runs before trimming: a non-empty string of whitespace
   * is not blank, and becomes a search for the empty string.
   */
  lemma WhitespaceInputSearchesEmpty(raw: string)
    requires raw != [] && AllWhitespace(raw)
    ensures Resolve(Some(raw)) == Address(SearchEndpoint)
  {
    TrimAllWhitespace(raw);
    assert SearchEndpoint + [] == SearchEndpoint;
  }

  /** `www.` anywhere in the input makes it a URL. */
  lemma WwwAnywhereIsUrl(a: string, b: string)
    ensures ClassifiesAsUrl(a + "www." + b)
  {
    ContainsInfix(a, "www.", b);
  }

  /** A word character, a dot and a word character anywhere in the input make it a URL. */
  lemma WordDotWordAnywhereIsUrl(a: string, x: char, y: char, b: string)
    requires IsWordChar(x) && IsWordChar(y)
    ensures ClassifiesAsUrl(a + [x, '.', y] + b)
  {
    var s := a + [x, '.', y] + b;
    assert WordDotWordAt(s, |a| + 1);
    HasWordDotWordIff(s);
  }

  /** Text with no dot whose first character is not `h` is a search query. */
  lemma NoDotNoSchemeIsSearch(s: string)
    requires forall i :: 0 <= i < |s| ==> s[i] != '.'
    requires s == [] || s[0] != 'h'
    ensures !ClassifiesAsUrl(s)
  {
    NoDotNoMatch(s);
    if |s| >= 7 {
      assert s[..7][0] == s[0];
    }
  }

  /** `\w+` */
  ghost predicate IsWord(s: string)
  {
    s != [] && forall i :: 0 <= i < |s| ==> IsWordChar(s[i])
  }

  /** Two words joined by one separator have nothing for trim to remove. */
  lemma WordsTrimToThemselves(a: string, sep: char, b: string)
    requires IsWord(a) && IsWord(b)
    ensures Trim(a + [sep] + b) == a + [sep] + b
  {
    var s := a + [sep] + b;
    assert s[0] == a[0] && s[|s| - 1] == b[|b| - 1];
    TrimUnpadded(s);
  }

  /** Two words joined by a separator other than `:` are never the blank sentinel. */
  lemma WordsAreNotBlank(a: string, sep: char, b: string)
    requires IsWord(a) && IsWord(b) && sep != ':'
    ensures !IsBlankInput(Some(a + [sep] + b))
  {
    var s := a + [sep] + b;
    assert forall i :: 0 <= i < |s| ==> s[i] == sep || IsWordChar(s[i]);
    assert BlankUrl[5] == ':';
  }

  /**
   * Two words joined by a separator other than `:` carry no scheme: a scheme
   * puts `:` at index 4 or 5, where such a string has a word character or
   * the separator.
   */
  lemma NoSchemeAfterWord(a: string, sep: char, b: string)
    requires IsWord(a) && IsWord(b) && sep != ':'
    ensures !HasScheme(a + [sep] + b)
  {
    var s := a + [sep] + b;
    assert forall i :: 0 <= i < |s| ==> s[i] == sep || IsWordChar(s[i]);
    if |s| >= 7 {
      assert s[..7][4] == s[4];
    }
    if |s| >= 8 {
      assert s[..8][5] == s[5];
    }
  }

  /** `a.b` matches `\w+\.\w+` and carries no scheme. */
  lemma BareDomainShape(a: string, b: string)
    requires IsWord(a) && IsWord(b)
    ensures HasWordDotWord(a + "." + b) && !HasScheme(a + "." + b)
  {
    var s := a + "." + b;
    assert s == a + ['.'] + b;
    assert WordDotWordAt(s, |a|);
    HasWordDotWordIff(s);
    NoSchemeAfterWord(a, '.', b);
  }

  /** A bare domain `a.b`, as an address, gets `https://` in front. */
  lemma BareDomainAddress(a: string, b: string)
    requires IsWord(a) && IsWord(b)
    ensures ResolveAddress(a + "." + b) == SecureScheme + (a + "." + b)
  {
    WordsTrimToThemselves(a, '.', b);
    BareDomainShape(a, b);
  }

  /** A bare domain `a.b` (as in "openai.com" or "hello.com") resolves to `https://a.b`. */
  lemma ResolvesBareDomain(a: string, b: string)
    requires IsWord(a) && IsWord(b)
    ensures Resolve(Some(a + "." + b)) == Address(SecureScheme + (a + "." + b))
  {
    WordsAreNotBlank(a, '.', b);
    BareDomainAddress(a, b);
  }

  /** Word characters are unreserved, so two words and a space encode with only the space escaped. */
  lemma EncodeWordsWithSpace(a: string, b: string)
    requires IsWord(a) && IsWord(b)
    ensures EncodeUriComponent(a + " " + b) == a + "%20" + b
  {
    assert AllUnreserved(a) && AllUnreserved(b);
    EncodeAround(a, ' ', b);
    EncodeReservedAscii(' ');
    assert PercentEscape(32) == "%20";
  }

  /** Two words joined by a space have no dot and no scheme. */
  lemma SpacedWordsShape(a: string, b: string)
    requires IsWord(a) && IsWord(b)
    ensures !ClassifiesAsUrl(a + " " + b)
  {
    var s := a + " " + b;
    assert s == a + [' '] + b;
    assert forall i :: 0 <= i < |s| ==> s[i] == ' ' || IsWordChar(s[i]);
    NoDotNoMatch(s);
    NoSchemeAfterWord(a, ' ', b);
  }

  /** Two dot-free words and a space resolve, as an address, to a search for the words joined by `%20`. */
  lemma SpacedWordsAddress(a: string, b: string)
    requires IsWord(a) && IsWord(b)
    ensures ResolveAddress(a + " " + b) == SearchEndpoint + (a + "%20" + b)
  {
    WordsTrimToThemselves(a, ' ', b);
    SpacedWordsShape(a, b);
    EncodeWordsWithSpace(a, b);
  }

  /**
   * Two dot-free words joined by a space (as in "best pizza" or "hot pizza")
   * become a search whose query is the words joined by `%20`.
   */
  lemma ResolvesTwoWordSearch(a: string, b: string)
    requires IsWord(a) && IsWord(b)
    ensures Resolve(Some(a + " " + b)) == Address(SearchEndpoint + (a + "%20" + b))
  {
    WordsAreNotBlank(a, ' ', b);
    SpacedWordsAddress(a, b);
  }

  /** The sentinel itself is not URL-shaped. */
  lemma SentinelNotUrl()
    ensures !ClassifiesAsUrl(BlankUrl)
  {
    NoDotNoSchemeIsSearch(BlankUrl);
  }

  /** Encoding the sentinel escapes its colon as `%3A`. */
  lemma SentinelEncoding()
    ensures EncodeUriComponent(BlankUrl) == "about" + "%3A" + "blank"
  {
    assert AllUnreserved("about") && AllUnreserved("blank");
    EncodeAround("about", ':', "blank");
    EncodeReservedAscii(':');
    assert PercentEscape(58) == "%3A";
    assert BlankUrl == "about" + [':'] + "blank";
  }

  /** Resolved as an address, the sentinel is a search for `about%3Ablank`. */
  lemma SentinelAddressIsSearch()
    ensures ResolveAddress(BlankUrl) == SearchEndpoint + ("about" + "%3A" + "blank")
  {
    TrimUnpadded(BlankUrl);
    SentinelNotUrl();
    SentinelEncoding();
  }

  /**
   * A padded input that is not itself blank resolves as its trimmed core
   * does, because only the blank check looks at the input before trimming.
   */
  lemma PaddingIgnoredWhenNotBlank(w: char, m: string, v: char)
    requires IsJsWhitespace(w) && IsJsWhitespace(v)
    requires m != [] && !IsJsWhitespace(m[0]) && !IsJsWhitespace(m[|m| - 1])
    requires [w] + m + [v] != BlankUrl
    ensures Resolve(Some([w] + m + [v])) == Address(ResolveAddress(m))
  {
    PaddedAddress(w, m, v);
  }

  /** As an address, a padded input resolves as its core does. */
  lemma PaddedAddress(w: char, m: string, v: char)
    requires IsJsWhitespace(w) && IsJsWhitespace(v)
    requires m != [] && !IsJsWhitespace(m[0]) && !IsJsWhitespace(m[|m| - 1])
    ensures ResolveAddress([w] + m + [v]) == ResolveAddress(m)
  {
    TrimPadded(w, m, v);
    ResolveAddressIgnoresPadding([w] + m + [v]);
  }

  /**
   * The sentinel padded with whitespace is not blank, since the blank check
   * comes before trimming: it is sent to the search endpoint as the query
   * `about%3Ablank`.
   */
  lemma ResolvesPaddedSentinelAsSearch(w: char, v: char)
    requires IsJsWhitespace(w) && IsJsWhitespace(v)
    ensures Resolve(Some([w] + BlankUrl + [v])) == Address(SearchEndpoint + ("about" + "%3A" + "blank"))
  {
    assert |[w] + BlankUrl + [v]| != |BlankUrl|;
    PaddingIgnoredWhenNotBlank(w, BlankUrl, v);
    SentinelAddressIsSearch();
  }
}
