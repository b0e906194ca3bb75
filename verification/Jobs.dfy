/** Server responses, and what every job does with the replies to its own commands. */
module Jobs {

  /** A part of a response is a string or a list of strings; reading one as the other gives nothing. */
  datatype Part = Str(text: string) | List(items: seq<string>) {
    function ToString(): string {
      if Str? then text else ""
    }

    function ToList(): seq<string> {
      if List? then items else []
    }
  }

  type Content = seq<Part>

  /** The first part is one of these tags. */
  predicate Answers(content: Content, tags: seq<string>) {
    content != [] && content[0].ToString() in tags
  }

  function Removed(tags: seq<string>, tag: string): (r: seq<string>)
    ensures forall t :: t in r <==> t in tags && t != tag
    ensures |r| <= |tags|
  {
    if tags == [] then []
    else
      var rest := Removed(tags[1..], tag);
      if tags[0] == tag then rest else [tags[0]] + rest
  }

  /** A job that waits for the replies to the commands it sent. `results` counts its result signals. */
  class Job {
    var tags: seq<string>
    var failed: bool
    var results: nat

    constructor (tags: seq<string>)
      ensures this.tags == tags && !failed && results == 0
    {
      this.tags := tags;
      failed, results := false, 0;
    }

    /** True when the response is the reply to one of the job's commands. The result is emitted with
        the last of them. */
    method HandleErrorReplies(content: Content) returns (handled: bool)
      modifies this
      ensures handled == Answers(content, old(tags))
      ensures !handled ==> tags == old(tags) && failed == old(failed) && results == old(results)
      ensures handled ==>
        && tags == Removed(old(tags), content[0].ToString())
        && failed == (old(failed) || (|content| >= 2 && content[1].ToString() != "OK"))
        && results == old(results) + (if tags == [] then 1 else 0)
    {
      if content != [] && content[0].ToString() in tags {
        if |content| >= 2 && content[1].ToString() != "OK" {
          failed := true;
        }
        tags := Removed(tags, content[0].ToString());
        if tags == [] {
          EmitResult();
        }
        return true;
      }
      return false;
    }

    method EmitResult()
      modifies this`results
      ensures results == old(results) + 1
    {
      results := results + 1;
    }

    /** The connection is gone: the job fails at once. */
    method ConnectionLost()
      modifies this
      ensures failed && results == old(results) + 1 && tags == old(tags)
    {
      failed := true;
      EmitResult();
    }
  }
}
