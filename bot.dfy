/**
 * The command handlers `task`, `view` and `clear` over an abstract file
 * system: a set of existing directories and a map from file path to the
 * task list pickled in that file. Replies are abstract values in the order
 * the handler sends them.
 */
module TaskBot {
  import opened Wrappers
  import opened Decimal
  import opened Addressing
  import opened Tasks

  /** The messages the handlers send, without their wording. */
  datatype Reply =
    | CapacityWarning
    | TaskAdded(position: nat, description: string)
    | TaskFinished
    | TaskCancelled(indexText: string)
    | IndexUsage
    | InvalidTaskUsage
    | NoRegisteredTasks
    | TaskListing(text: string)
    | ConfirmClearAll
    | ClearedAll
    | ClearAborted
    | ClearedSelected

  /** The Python exceptions that escape a handler and end it without a reply. */
  datatype Error = IndexError | FileNotFoundError

  datatype Outcome = Returned | Raised(error: Error)

  /**
   * What `bot.wait_for` delivers to `clear all`: nothing within its timeout,
   * or the next message of the same author in the same channel.
   */
  datatype Response = Timeout | Message(content: string)

  /** The list stored at a path, the empty list where there is no file. */
  function ListAt(files: map<string, TaskList>, path: string): TaskList {
    if path in files then files[path] else []
  }

  /** At most the file at `path` was created, rewritten or removed. */
  ghost predicate OnlyFileChanged(before: map<string, TaskList>, after: map<string, TaskList>, path: string) {
    forall p | p != path :: (p in after <==> p in before) && ListAt(after, p) == ListAt(before, p)
  }

  /**
   * As long as SHA-256 does not collide on snowflakes, a handler run for one
   * (guild, user) pair leaves every other pair's file as it was: present or
   * absent as before, and holding the same list.
   */
  lemma OtherUsersUntouched(hash: Hash, before: map<string, TaskList>, after: map<string, TaskList>, guild: int, user: int)
    requires IsDigestFunction(hash) && IsSnowflake(guild) && IsSnowflake(user)
    requires OnlyFileChanged(before, after, FilePath(hash, guild, user))
    ensures forall g: int, u: int | IsSnowflake(g) && IsSnowflake(u) && (g != guild || u != user) ::
      && (FilePath(hash, g, u) in after <==> FilePath(hash, g, u) in before)
      && ListAt(after, FilePath(hash, g, u)) == ListAt(before, FilePath(hash, g, u))
  {
    forall g: int, u: int | IsSnowflake(g) && IsSnowflake(u) && (g != guild || u != user)
      ensures FilePath(hash, g, u) in after <==> FilePath(hash, g, u) in before
      ensures ListAt(after, FilePath(hash, g, u)) == ListAt(before, FilePath(hash, g, u))
    {
      FilePathInjective(hash, g, u, guild, user);
    }
  }

  /**
   * The value `which` holds when `clear` filters: the text is replaced by the
   * code CANCELLED or FINISHED for "cancelled" and "finished", and stays a
   * text (`None`, equal to no code) otherwise.
   */
  function ScopeTarget(which: string): (target: Option<int>)
    ensures target == Some(Code(Finished)) <==> which == "finished"
    ensures target == Some(Code(Cancelled)) <==> which == "cancelled"
    ensures target.Some? <==> which == "finished" || which == "cancelled"
  {
    if which == "cancelled" then Some(Code(Cancelled)) else if which == "finished" then Some(Code(Finished)) else None
  }

  /** The store after the set-up of `task`: the file at `path` exists, holding its old list or `[]`. */
  function Initialised(files: map<string, TaskList>, path: string): (after: map<string, TaskList>)
    ensures path in after && after[path] == ListAt(files, path)
    ensures OnlyFileChanged(files, after, path)
  {
    files[path := ListAt(files, path)]
  }

  /**
   * What `task add` does to the list at `path`: the record is appended, and the
   * capacity warning precedes the confirmation exactly when the list already
   * held `maxTasks` records or more.
   */
  ghost predicate AddEffect(before: map<string, TaskList>, after: map<string, TaskList>, path: string,
                            description: string, maxTasks: int, replies: seq<Reply>)
  {
    var tasks := ListAt(before, path);
    && after == before[path := Appended(tasks, description)]
    && replies == (if |tasks| >= maxTasks then [CapacityWarning] else []) + [TaskAdded(|tasks| + 1, description)]
  }

  /**
   * What `task finished|cancel <index>` does to the list at `path`: an
   * unparsable index gets a usage reply, an index outside Python's range
   * raises `IndexError`, and otherwise exactly one status is overwritten.
   * In all three cases the file is left as it was unless a status changes.
   */
  ghost predicate MarkEffect(before: map<string, TaskList>, after: map<string, TaskList>, path: string,
                             action: string, description: string, replies: seq<Reply>, outcome: Outcome)
  {
    var tasks := ListAt(before, path);
    var status := if action == "finished" then Finished else Cancelled;
    match ParseInt(description)
    case None =>
      outcome == Returned && after == before && replies == [IndexUsage]
    case Some(k) =>
      match PyIndex(|tasks|, k - 1)
      case None =>
        outcome == Raised(IndexError) && after == before && replies == []
      case Some(p) =>
        && outcome == Returned
        && after == before[path := WithStatus(tasks, p, status)]
        && replies == [if action == "finished" then TaskFinished else TaskCancelled(description)]
  }

  class Store {
    /** SHA-256 as seen by `obscure`. */
    const hash: Hash
    /** `MAX_NUMBER_OF_TASKS`, read from the environment at start-up. */
    const maxTasks: int
    /** The directories that exist. */
    var dirs: set<string>
    /** The task files that exist, with the list each holds. */
    var files: map<string, TaskList>

    constructor (hash: Hash, maxTasks: int, dirs: set<string>, files: map<string, TaskList>)
      ensures this.hash == hash && this.maxTasks == maxTasks
      ensures this.dirs == dirs && this.files == files
    {
      this.hash := hash;
      this.maxTasks := maxTasks;
      this.dirs := dirs;
      this.files := files;
    }

    /**
     * `task add <description>` and `task finished|cancel <index>`. The guild
     * directory and an empty list file are created first when absent, for
     * every action; creating the directory fails when `./guilds` is missing.
     */
    method Task(guild: int, user: int, action: string, description: string) returns (replies: seq<Reply>, outcome: Outcome)
      modifies this
      ensures old(dirs) <= dirs
      ensures OnlyFileChanged(old(files), files, FilePath(hash, guild, user))
      // set-up: the directory is created only when missing, its parent must exist
      ensures outcome == Raised(FileNotFoundError) <==>
        GuildDir(hash, guild) !in old(dirs) && GuildsRoot !in old(dirs)
      ensures outcome == Raised(FileNotFoundError) ==>
        replies == [] && dirs == old(dirs) && files == old(files)
      ensures outcome != Raised(FileNotFoundError) ==>
        dirs == old(dirs) + {GuildDir(hash, guild)} && FilePath(hash, guild, user) in files
      ensures action == "add" && outcome != Raised(FileNotFoundError) ==>
        outcome == Returned &&
        AddEffect(Initialised(old(files), FilePath(hash, guild, user)), files, FilePath(hash, guild, user),
                  description, maxTasks, replies)
      ensures (action == "finished" || action == "cancel") && outcome != Raised(FileNotFoundError) ==>
        MarkEffect(Initialised(old(files), FilePath(hash, guild, user)), files, FilePath(hash, guild, user),
                   action, description, replies, outcome)
      ensures action != "add" && action != "finished" && action != "cancel" && outcome != Raised(FileNotFoundError) ==>
        outcome == Returned && files == Initialised(old(files), FilePath(hash, guild, user)) && replies == [InvalidTaskUsage]
    {
      var v := GetPathVariables(hash, guild, user);
      var initialised := Initialise(v.guildDir, v.filePath);
      if !initialised {
        return [], Raised(FileNotFoundError);
      }
      if action == "add" {
        replies := Add(v.filePath, description);
        outcome := Returned;
      } else if action == "finished" || action == "cancel" {
        replies, outcome := Mark(v.filePath, action, description);
      } else {
        replies, outcome := [InvalidTaskUsage], Returned;
      }
    }

    /** The set-up of `task`: make the guild directory, then an empty list file, where missing. */
    method Initialise(guildDir: string, filePath: string) returns (initialised: bool)
      modifies this
      ensures initialised <==> guildDir in old(dirs) || GuildsRoot in old(dirs)
      ensures !initialised ==> dirs == old(dirs) && files == old(files)
      ensures initialised ==> dirs == old(dirs) + {guildDir} && files == Initialised(old(files), filePath)
    {
      if guildDir !in dirs {
        if GuildsRoot !in dirs {
          return false;
        }
        dirs := dirs + {guildDir};
      }
      if filePath !in files {
        files := files[filePath := []];
      }
      return true;
    }

    /** `task add`: append an ADDED record, warning first when the list is already at capacity. */
    method Add(filePath: string, description: string) returns (replies: seq<Reply>)
      requires filePath in files
      modifies this`files
      ensures AddEffect(old(files), files, filePath, description, maxTasks, replies)
    {
      replies := [];
      var userTasks := files[filePath];
      if |userTasks| >= maxTasks {
        replies := replies + [CapacityWarning];
      }
      userTasks := userTasks + [Record(Added, description)];
      files := files[filePath := userTasks];
      replies := replies + [TaskAdded(|userTasks|, description)];
    }

    /** `task finished` / `task cancel`: overwrite the status of the record the index text addresses. */
    method Mark(filePath: string, action: string, description: string) returns (replies: seq<Reply>, outcome: Outcome)
      requires filePath in files
      requires action == "finished" || action == "cancel"
      modifies this`files
      ensures MarkEffect(old(files), files, filePath, action, description, replies, outcome)
    {
      var actionCode, actionMessage;
      if action[0] == 'f' {
        actionCode, actionMessage := Finished, TaskFinished;
      } else {
        actionCode, actionMessage := Cancelled, TaskCancelled(description);
      }
      var userTasks := files[filePath];
      var parsed := ParseInt(description);
      if parsed.None? {
        return [IndexUsage], Returned;
      }
      var index := parsed.value - 1;
      var position := PyIndex(|userTasks|, index);
      if position.None? {
        return [], Raised(IndexError);
      }
      userTasks := userTasks[position.value := userTasks[position.value].(status := actionCode)];
      files := files[filePath := userTasks];
      replies, outcome := [actionMessage], Returned;
    }

    /** `view`: one numbered line per task, or a notice when there is no directory or file. */
    method View(guild: int, user: int) returns (reply: Reply)
      ensures var dir, path := GuildDir(hash, guild), FilePath(hash, guild, user);
        reply == if dir in dirs && path in files then TaskListing(Render(files[path])) else NoRegisteredTasks
    {
      var v := GetPathVariables(hash, guild, user);
      var guildDir, filePath := v.guildDir, v.filePath;
      if guildDir !in dirs {
        return NoRegisteredTasks;
      }
      if filePath !in files {
        return NoRegisteredTasks;
      }
      var userTasks := files[filePath];
      var message := "";
      for i := 0 to |userTasks|
        invariant message == RenderFrom(userTasks[..i], 1)
      {
        ghost var before := message;
        message := message + NatToString(i + 1) + ". ";
        message := message + Glyph(userTasks[i].status);
        message := message + userTasks[i].description;
        message := message + "\n";
        assert message == before + Line(i + 1, userTasks[i]) + "\n";
        RenderPrefix(userTasks, i);
      }
      assert userTasks[..|userTasks|] == userTasks;
      reply := TaskListing(message);
    }

    /**
     * `clear finished|cancelled` removes the records of that status and
     * deletes the file once nothing is left; `clear all` deletes the file
     * only when the confirmation answer is exactly "Y".
     */
    method Clear(guild: int, user: int, which: string, response: Response) returns (replies: seq<Reply>)
      modifies this`files
      ensures OnlyFileChanged(old(files), files, FilePath(hash, guild, user))
      ensures GuildDir(hash, guild) !in dirs || FilePath(hash, guild, user) !in old(files) ==>
        replies == [NoRegisteredTasks] && files == old(files)
      ensures GuildDir(hash, guild) in dirs && FilePath(hash, guild, user) in old(files) && which == "all" ==>
        && replies == [ConfirmClearAll] + (match response
                                          case Timeout => []
                                          case Message(c) => [if c == "Y" then ClearedAll else ClearAborted])
        && files == if response == Message("Y") then old(files) - {FilePath(hash, guild, user)} else old(files)
      ensures GuildDir(hash, guild) in dirs && FilePath(hash, guild, user) in old(files) && which != "all" ==>
        var path := FilePath(hash, guild, user);
        var kept := Without(old(files)[path], ScopeTarget(which));
        && replies == [ClearedSelected]
        && files == if kept == [] then old(files) - {path} else old(files)[path := kept]
    {
      var v := GetPathVariables(hash, guild, user);
      var guildDir, filePath := v.guildDir, v.filePath;
      if guildDir !in dirs {
        return [NoRegisteredTasks];
      }
      if filePath !in files {
        return [NoRegisteredTasks];
      }

      if which == "all" {
        replies := [ConfirmClearAll];
        match response {
          case Timeout =>
            return;
          case Message(content) =>
            if content == "Y" {
              files := files - {filePath};
              replies := replies + [ClearedAll];
            } else {
              replies := replies + [ClearAborted];
            }
        }
        return;
      }

      var userTasks := files[filePath];
      var target := ScopeTarget(which);
      var updatedUserTasks := Without(userTasks, target);
      if |updatedUserTasks| == 0 {
        files := files - {filePath};
      } else {
        files := files[filePath := updatedUserTasks];
      }
      replies := [ClearedSelected];
    }
  }
}
