// The answers a connection can give, as text.
module HttpResponse {
  import opened CStrings

  datatype HttpCode =
    | NoRequest | GetRequest | BadRequest | NoResource
    | ForbiddenRequest | FileRequest | InternalError | ClosedConnection

  // The event a connection waits for next.
  datatype Interest = In | Out

  const FORM_400 := "Your request has bad syntax or is inherently impossible to satisfy.\n"
  const FORM_403 := "You do not have permission to get file from this server.\n"
  const FORM_404 := "The requested file was not found on this server.\n"
  const FORM_500 := "There was an unusual problem serving the requested file.\n"

  lemma FormLengths()
    ensures 0 < |FORM_400| <= 80 && 0 < |FORM_403| <= 80 && 0 < |FORM_404| <= 80 && 0 < |FORM_500| <= 80
  {
  }

  function Decimal(n: int): (s: string) {
    if n < 0 then "-" + Digits(-n) else Digits(n)
  }

  function Digits(n: nat): (s: string)
    ensures s != []
  {
    if n < 10 then [('0' as int + n) as char] else Digits(n / 10) + [('0' as int + n % 10) as char]
  }

  function PowerOfTen(k: nat): nat {
    if k == 0 then 1 else 10 * PowerOfTen(k - 1)
  }

  lemma {:induction false} DigitsShort(n: nat, k: nat)
    requires k > 0 && n < PowerOfTen(k)
    ensures |Digits(n)| <= k
  {
    if n >= 10 {
      assert k > 1;
      DigitsShort(n / 10, k - 1);
    }
  }

  lemma DecimalShort(n: int)
    requires -0x8000_0000 <= n < 0x8000_0000
    ensures |Decimal(n)| <= 11
  {
    assert PowerOfTen(10) == 10_000_000_000 by {
      assert PowerOfTen(5) == 100_000;
      assert PowerOfTen(7) == 100 * PowerOfTen(5);
      assert PowerOfTen(9) == 100 * PowerOfTen(7);
    }
    DigitsShort(if n < 0 then -n else n, 10);
  }

  function StatusLine(status: string, title: string): (s: string)
    ensures |s| == 12 + |status| + |title|
  {
    "HTTP/1.1 " + status + " " + title + CRLF
  }

  function LengthHeader(n: int): (s: string)
    ensures |s| == 18 + |Decimal(n)|
  {
    "Content-Length: " + Decimal(n) + CRLF
  }

  function TypeHeader(): (s: string)
    ensures |s| == 24
  {
    "Content-Type:text/html\r\n"
  }

  function LingerHeader(linger: bool): (s: string)
    ensures |s| <= 24
  {
    "Connection: " + (if linger then "keep-alive" else "close") + CRLF
  }

  function ResponseHeaders(contentLength: int, linger: bool): (s: string)
    ensures |s| <= 68 + |Decimal(contentLength)|
  {
    LengthHeader(contentLength) + TypeHeader() + LingerHeader(linger) + CRLF
  }

  function ErrorResponse(status: string, title: string, form: string, linger: bool): string {
    StatusLine(status, title) + ResponseHeaders(|form|, linger) + form
  }

  // The bytes of an answer, without the file that follows a 200.
  function Response(code: HttpCode, linger: bool, fileSize: nat): string {
    match code
    case InternalError => ErrorResponse("500", "Internal Error", FORM_500, linger)
    case BadRequest => ErrorResponse("400", "Bad Request", FORM_400, linger)
    case NoResource => ErrorResponse("404", "Not Found", FORM_404, linger)
    case ForbiddenRequest => ErrorResponse("403", "Forbidden", FORM_403, linger)
    case FileRequest => StatusLine("200", "OK") + ResponseHeaders(ToInt32(fileSize), linger)
    case _ => ""
  }
}
