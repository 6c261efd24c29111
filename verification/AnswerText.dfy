// The answers of the server, written out.
module AnswerText {
  import opened CStrings
  import opened HttpResponse
  import opened Numbers

  // A status line, the length of what follows, its type, whether the connection is kept, a
  // blank line, and what follows.
  ghost predicate IsAnswer(text: string, status: string, linger: bool, length: int, form: string) {
    exists number :: IsDecimal(number, length) && text == AnswerWith(status, linger, number, form)
  }

  function AnswerWith(status: string, linger: bool, number: string, form: string): string {
    "HTTP/1.1 " + status + "\r\n" +
    "Content-Length: " + number + "\r\n" +
    "Content-Type:text/html\r\n" +
    "Connection: " + (if linger then "keep-alive" else "close") + "\r\n" +
    "\r\n" + form
  }

  lemma HeadersAre(status: string, title: string, length: int, linger: bool, form: string)
    ensures StatusLine(status, title) + ResponseHeaders(length, linger) + form
         == AnswerWith(status + " " + title, linger, Decimal(length), form)
  {
    hide Decimal;
    var (a, b) := ("HTTP/1.1 " + status + " " + title, "HTTP/1.1 " + (status + " " + title));
    assert a == b;
    var (n, l) := (Decimal(length), if linger then "keep-alive" else "close");
    HeadersJoin(a, n, l, form);
  }

  lemma HeadersJoin(a: string, n: string, l: string, form: string)
    ensures (a + "\r\n")
            + (("Content-Length: " + n + "\r\n") + "Content-Type:text/html\r\n" + ("Connection: " + l + "\r\n") + "\r\n")
            + form
         == a + "\r\n" + "Content-Length: " + n + "\r\n" + "Content-Type:text/html\r\n" + "Connection: " + l + "\r\n"
            + "\r\n" + form
  {
  }

  lemma AnswerIs(status: string, title: string, length: int, linger: bool, form: string)
    ensures IsAnswer(StatusLine(status, title) + ResponseHeaders(length, linger) + form,
                     status + " " + title, linger, length, form)
  {
    hide StatusLine, ResponseHeaders, AnswerWith, Decimal, IsDecimal;
    HeadersAre(status, title, length, linger, form);
    DecimalReadsBack(length);
  }

  // The text is the answer for the code.
  ghost predicate Answers(text: string, code: HttpCode, linger: bool, size: nat) {
    match code
    case FileRequest => IsAnswer(text, "200 OK", linger, ToInt32(size), "")
    case BadRequest => IsAnswer(text, "400 Bad Request", linger, |FORM_400|, FORM_400)
    case ForbiddenRequest => IsAnswer(text, "403 Forbidden", linger, |FORM_403|, FORM_403)
    case NoResource => IsAnswer(text, "404 Not Found", linger, |FORM_404|, FORM_404)
    case InternalError => IsAnswer(text, "500 Internal Error", linger, |FORM_500|, FORM_500)
    case _ => text == ""
  }

  lemma ResponseText(code: HttpCode, linger: bool, size: nat)
    ensures Answers(Response(code, linger, size), code, linger, size)
  {
    hide StatusLine, ResponseHeaders, IsAnswer;
    match code
    case FileRequest =>
      AnswerIs("200", "OK", ToInt32(size), linger, "");
      assert "200" + " " + "OK" == "200 OK";
      var text := StatusLine("200", "OK") + ResponseHeaders(ToInt32(size), linger);
      assert text + "" == text;
    case BadRequest =>
      AnswerIs("400", "Bad Request", |FORM_400|, linger, FORM_400);
      assert "400" + " " + "Bad Request" == "400 Bad Request";
    case ForbiddenRequest =>
      AnswerIs("403", "Forbidden", |FORM_403|, linger, FORM_403);
      assert "403" + " " + "Forbidden" == "403 Forbidden";
    case NoResource =>
      AnswerIs("404", "Not Found", |FORM_404|, linger, FORM_404);
      assert "404" + " " + "Not Found" == "404 Not Found";
    case InternalError =>
      AnswerIs("500", "Internal Error", |FORM_500|, linger, FORM_500);
      assert "500" + " " + "Internal Error" == "500 Internal Error";
    case _ =>
  }
}
