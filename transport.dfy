/**
 * The command-line session with a router and the outcome a module reports.
 *
 * The SSH connection itself is outside the model: a session records the
 * commands sent over it, in order, and the router's reply to a command is
 * a fixed function of every command sent so far (the last one included),
 * so a router whose answers depend on earlier commands is covered.
 */
module Transport {

  /** What a module reports when it finishes: success, or the failure
      message it exits with. */
  datatype Outcome = Changed | Failed(msg: string)

  /** An open command-line session (connected and in enable mode). */
  class Session {
    /** Every command sent, in order. */
    var sent: seq<string>
    var open: bool
    /** The reply to the last command of a command log. */
    const respond: seq<string> -> string

    constructor(respond: seq<string> -> string)
      ensures sent == [] && open
      ensures this.respond == respond
    {
      this.respond := respond;
      sent := [];
      open := true;
    }

    /** `ssh.command(c)`: send one command and return its reply. */
    method Command(c: string) returns (reply: string)
      requires open
      modifies this
      ensures sent == old(sent) + [c] && open
      ensures reply == respond(sent)
    {
      sent := sent + [c];
      reply := respond(sent);
    }

    /** `ssh.close()`. */
    method Close()
      modifies this
      ensures sent == old(sent) && !open
    {
      open := false;
    }
  }
}
