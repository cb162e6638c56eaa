/** The logging filter that both search tools attach to their handlers so that the access
    token never reaches a log line. */
module Redaction {
  import opened Wrappers
  import opened Strings

  /** What replaces every occurrence of the token. */
  const RedactedMarker := "[REDACTED]"

  /** A log record: the message template and its %-format arguments (already rendered to text). */
  class LogRecord {
    var msg: string
    var args: seq<string>

    constructor (msg: string, args: seq<string>)
      ensures this.msg == msg && this.args == args
    {
      this.msg := msg;
      this.args := args;
    }
  }

  /** The text of a formatted log message after redaction: with a non-empty token that occurs
      in it, every occurrence is replaced by the marker; otherwise it is left as it is. */
  function Redact(token: Option<string>, message: string): (r: string)
    ensures !Truthy(token) || !Contains(message, token.value) ==> r == message
    ensures Truthy(token) && Contains(message, token.value) ==> Contains(r, RedactedMarker)
  {
    if Truthy(token) && Contains(message, token.value) then
      var r := ReplaceAll(message, token.value, RedactedMarker);
      ReplaceInserts(message, token.value, RedactedMarker);
      r
    else message
  }

  /** Redaction keeps the text around the token: cutting the message at the token's leftmost
      non-overlapping occurrences gives pieces free of the token that rebuild the message
      when joined with it, and the redacted text is those same pieces joined with the marker. */
  lemma RedactKeepsSurroundings(token: Option<string>, message: string)
    requires Truthy(token)
    ensures var pieces := SplitOn(message, token.value);
            && Join(pieces, token.value) == message
            && (forall p :: p in pieces ==> !Contains(p, token.value))
            && Redact(token, message) == Join(pieces, RedactedMarker)
            && (forall i :: 0 <= i < |pieces[0]| ==> !OccursAt(message, token.value, i))
            && (|pieces| > 1 ==>
                  && OccursAt(message, token.value, |pieces[0]|)
                  && SplitOn(message[|pieces[0]| + |token.value|..], token.value) == pieces[1..])
  {
    SplitOnPieces(message, token.value);
    SplitOnFirstLeftmost(message, token.value);
    SplitOnRest(message, token.value);
    if !Contains(message, token.value) {
      SplitOnAbsent(message, token.value);
    }
  }

  /** Overlapping occurrences are cut leftmost: in "aaa" the token "aa" is redacted at the
      start, although the token-free pieces "a" and "" also rebuild "aaa" with it at the end. */
  lemma RedactOverlappingToken()
    ensures Redact(Some("aa"), "aaa") == RedactedMarker + "a"
    ensures Join(["a", ""], "aa") == "aaa" && !Contains("a", "aa") && !Contains("", "aa")
    ensures Join(["a", ""], RedactedMarker) != Redact(Some("aa"), "aaa")
  {
    assert OccursAt("aaa", "aa", 0);
    assert "aaa"[..2] == "aa" && "aaa"[2..] == "a";
    assert ReplaceAll("a", "aa", RedactedMarker) == "a";
    assert Join(["a", ""], RedactedMarker) == "a" + RedactedMarker;
    assert ("a" + RedactedMarker)[0] != (RedactedMarker + "a")[0];
  }

  /** After redaction the token no longer occurs, whenever it cannot be rebuilt from the
      marker and its surroundings: it holds neither bracket and does not occur in the marker. */
  lemma RedactRemovesToken(token: Option<string>, message: string)
    requires Truthy(token)
    requires '[' !in token.value && ']' !in token.value && !Contains(RedactedMarker, token.value)
    ensures !Contains(Redact(token, message), token.value)
  {
    if Contains(message, token.value) {
      ReplaceRemovesAll(message, token.value, RedactedMarker);
    }
  }

  /** Redacting a message a second time changes nothing more. */
  lemma RedactIdempotent(token: Option<string>, message: string)
    requires Truthy(token) ==> '[' !in token.value && ']' !in token.value && !Contains(RedactedMarker, token.value)
    ensures Redact(token, Redact(token, message)) == Redact(token, message)
  {
    if Truthy(token) {
      RedactRemovesToken(token, message);
    }
  }

  /** A token given as a marker-free, bracket-free access token (for example "s3cr3t") is
      removed even when it occurs several times. */
  lemma RedactExample()
    ensures !Contains(Redact(Some("s3cr3t"), "token=s3cr3t retry s3cr3t"), "s3cr3t")
  {
    var t := "s3cr3t";
    assert '[' !in t && ']' !in t;
    forall i | 0 <= i <= |RedactedMarker| ensures !OccursAt(RedactedMarker, t, i) {
      if i + |t| <= |RedactedMarker| {
        assert RedactedMarker[i..i + |t|][0] == RedactedMarker[i];
        assert RedactedMarker[i] != 's';
      }
    }
    RedactRemovesToken(Some(t), "token=s3cr3t retry s3cr3t");
  }

  /** `RedactTokenFilter` (jira.py and trello.py are identical here). */
  class RedactTokenFilter {
    const token: Option<string>

    constructor (token: Option<string>)
      ensures this.token == token
    {
      this.token := token;
    }

    /** `filter(record)`; `formatted` is what `record.getMessage()` gives, None when it raises.
        The record is always emitted. It is rewritten only when the token is non-empty, the
        message could be formatted and it contains the token: then the message becomes the
        redacted text and the arguments are cleared. */
    method Filter(record: LogRecord, formatted: Option<string>) returns (emit: bool)
      modifies record
      ensures emit
      ensures Truthy(token) && formatted.Some? && Contains(formatted.value, token.value) ==>
                record.msg == Redact(token, formatted.value) && record.args == []
      ensures !(Truthy(token) && formatted.Some? && Contains(formatted.value, token.value)) ==>
                record.msg == old(record.msg) && record.args == old(record.args)
    {
      if !Truthy(token) {
        return true;
      }
      if formatted.None? {
        return true;
      }
      var msg := formatted.value;
      if Contains(msg, token.value) {
        record.msg := ReplaceAll(msg, token.value, RedactedMarker);
        record.args := [];
      }
      return true;
    }
  }
}
