/**
 The response status of src/http_response.hpp and its text, to_string of
 src/http_response.cpp. t_response_answer is a plain enum, so a value
 outside its four enumerators can reach the switch; AnswerOf and
 StatusTextOf cover that default branch.
 */
module Status {
  import opened Text

  /** t_response_answer. */
  datatype ResponseAnswer = RT_OK | RT_CREATED | RT_NOT_FOUND | RT_SERVER_ERROR

  /** to_string(t_response_answer) on the four enumerators. */
  function StatusText(a: ResponseAnswer): string {
    match a
    case RT_OK => "200 OK"
    case RT_CREATED => "201 Created"
    case RT_NOT_FOUND => "404 Not Found"
    case RT_SERVER_ERROR => "500 Internal Server Error"
  }

  /** The enumerator an underlying value names (RT_OK = 0, then in order). */
  function AnswerOf(v: int): (r: Option<ResponseAnswer>)
    ensures r.Some? <==> 0 <= v < 4
  {
    if v == 0 then Some(RT_OK)
    else if v == 1 then Some(RT_CREATED)
    else if v == 2 then Some(RT_NOT_FOUND)
    else if v == 3 then Some(RT_SERVER_ERROR)
    else None
  }

  /** to_string(t_response_answer) on any underlying value: the default branch gives "UNKNOWN". */
  function StatusTextOf(v: int): string {
    match AnswerOf(v)
    case None => "UNKNOWN"
    case Some(a) => StatusText(a)
  }

  /** The HTTP status code whose text StatusText gives. */
  function Code(a: ResponseAnswer): nat {
    match a
    case RT_OK => 200
    case RT_CREATED => 201
    case RT_NOT_FOUND => 404
    case RT_SERVER_ERROR => 500
  }

  /** Each text is its three-digit code, a space and a reason phrase; "UNKNOWN" is none of them. */
  lemma StatusTextShape(a: ResponseAnswer)
    ensures |StatusText(a)| > 4 && StatusText(a)[..3] == NatToString(Code(a)) && StatusText(a)[3] == ' '
    ensures 100 <= Code(a) < 600
    ensures StatusText(a) != "UNKNOWN"
  {
    StatusTextCode(a);
  }

  lemma StatusTextCode(a: ResponseAnswer)
    ensures |StatusText(a)| > 4 && StatusText(a)[..3] == NatToString(Code(a))
  {
    var t, c := StatusText(a), Code(a);
    assert c / 10 % 10 == 0;
    assert t[0] == DigitChar(c / 100) && t[1] == DigitChar(c / 10 % 10) && t[2] == DigitChar(c % 10);
    CodePrefix(t, c);
  }

  /** A text whose first three characters are the digits of a three-digit number starts
      with its decimal text. */
  lemma CodePrefix(t: string, c: nat)
    requires 100 <= c < 1000 && |t| >= 3
    requires t[0] == DigitChar(c / 100) && t[1] == DigitChar(c / 10 % 10) && t[2] == DigitChar(c % 10)
    ensures t[..3] == NatToString(c)
  {
    ThreeDigits(c);
  }

  /** The decimal text of a three-digit number. */
  lemma ThreeDigits(c: nat)
    requires 100 <= c < 1000
    ensures NatToString(c) == [DigitChar(c / 100), DigitChar(c / 10 % 10), DigitChar(c % 10)]
  {
    assert NatToString(c / 10) == [DigitChar(c / 100), DigitChar(c / 10 % 10)] by {
      assert NatToString(c / 100) == [DigitChar(c / 100)];
    }
  }

  /** Different statuses have different texts and different codes. */
  lemma StatusTextInjective(a: ResponseAnswer, b: ResponseAnswer)
    ensures StatusText(a) == StatusText(b) <==> a == b
    ensures Code(a) == Code(b) <==> a == b
  {
  }

  /** Values outside the enumeration print as "UNKNOWN", the four inside as their status text. */
  lemma StatusTextOfValues(v: int)
    ensures v < 0 || v >= 4 ==> StatusTextOf(v) == "UNKNOWN"
    ensures StatusTextOf(0) == "200 OK" && StatusTextOf(1) == "201 Created"
    ensures StatusTextOf(2) == "404 Not Found" && StatusTextOf(3) == "500 Internal Server Error"
  {
  }
}
