/**
 The request-method classifier and printer of src/http_request.cpp. The
 method word is classified by substring containment, POST before GET, and
 a word holding neither raises std::invalid_argument (here: None).
 */
module RequestMethod {
  import opened Text

  /** t_request_type. */
  datatype RequestType = RT_GET | RT_POST | RT_UNKNOWN

  /** get_request_type. */
  function GetRequestType(word: string): (r: Option<RequestType>)
    ensures Contains(word, "POST") ==> r == Some(RT_POST)
    ensures !Contains(word, "POST") && Contains(word, "GET") ==> r == Some(RT_GET)
    ensures !Contains(word, "POST") && !Contains(word, "GET") ==> r == None
  {
    FindIffContains(word, "POST");
    FindIffContains(word, "GET");
    if Find(word, "POST", 0).Some? then Some(RT_POST)
    else if Find(word, "GET", 0).Some? then Some(RT_GET)
    else None
  }

  /** to_string(t_request_type). */
  function RequestTypeName(t: RequestType): string {
    match t
    case RT_GET => "GET"
    case RT_POST => "POST"
    case RT_UNKNOWN => "UNKNOWN"
  }

  /** Printing a recognised method and classifying the text gives the method back;
      the text printed for RT_UNKNOWN is rejected. */
  lemma NameRoundTrip(t: RequestType)
    ensures t != RT_UNKNOWN ==> GetRequestType(RequestTypeName(t)) == Some(t)
    ensures t == RT_UNKNOWN ==> GetRequestType(RequestTypeName(t)) == None
  {
    match t
    case RT_GET =>
      assert OccursAt("GET", "GET", 0);
      NoOccurrence("GET", "POST");
    case RT_POST =>
      assert OccursAt("POST", "POST", 0);
    case RT_UNKNOWN =>
      NoOccurrence("UNKNOWN", "POST");
      NoOccurrence("UNKNOWN", "GET");
  }

  /** A word lacking the first character of `pat` does not contain `pat`. */
  lemma NoOccurrence(s: string, pat: string)
    requires pat != [] && pat[0] !in s
    ensures !Contains(s, pat)
  {
  }

  /** Containment, not equality, decides: "XGETX" is GET and "POSTGET" is POST. */
  lemma SubstringExamples()
    ensures GetRequestType("XGETX") == Some(RT_GET)
    ensures GetRequestType("POSTGET") == Some(RT_POST)
    ensures GetRequestType("") == None
  {
    assert OccursAt("XGETX", "GET", 1);
    NoOccurrence("XGETX", "POST");
    assert OccursAt("POSTGET", "POST", 0);
    NoOccurrence("", "POST");
    NoOccurrence("", "GET");
  }
}
