/**
 * The bot's database as one object whose three tables the write operations
 * update in place (`get_user`, `set_user`, `add_vocab`, `remove_vocab`,
 * `record_answer`). The read-only queries are the functions of `Tables`,
 * applied to the fields.
 */
module Store {
  import opened Wrappers
  import opened Tables
  import Text

  class Database {
    var users: map<ChatId, User>
    var vocab: seq<VocabItem>
    var nextVocabId: int
    var answers: seq<Answer>
    var nextAnswerId: int

    /**
     * Users are keyed by their chat; auto-increment ids are positive, ascending
     * and below the next one to be assigned; strengths are never negative.
     */
    ghost predicate Valid()
      reads this
    {
      && (forall c :: c in users ==> users[c].chatId == c)
      && 1 <= nextVocabId && 1 <= nextAnswerId
      && Ascending(vocab)
      && (forall i :: 0 <= i < |vocab| ==> 1 <= vocab[i].id < nextVocabId)
      && (forall i :: 0 <= i < |vocab| ==> vocab[i].strength >= 0)
      && (forall i, j :: 0 <= i < j < |answers| ==> answers[i].id < answers[j].id)
      && (forall i :: 0 <= i < |answers| ==> 1 <= answers[i].id < nextAnswerId)
    }

    /** `init_schema` on a fresh database: three empty tables. */
    constructor ()
      ensures Valid()
      ensures users == map[] && vocab == [] && answers == []
      ensures nextVocabId == 1 && nextAnswerId == 1
    {
      users := map[];
      vocab := [];
      nextVocabId := 1;
      answers := [];
      nextAnswerId := 1;
    }

    /** `get_user`: the chat's row, inserted with the column defaults on first use. */
    method GetUser(chat: ChatId) returns (u: User)
      requires Valid()
      modifies this
      ensures Valid()
      ensures chat in users && u == users[chat]
      ensures chat in old(users) ==> users == old(users)
      ensures chat !in old(users) ==> users == old(users)[chat := DefaultUser(chat)]
      ensures vocab == old(vocab) && nextVocabId == old(nextVocabId)
      ensures answers == old(answers) && nextAnswerId == old(nextAnswerId)
    {
      if chat !in users {
        users := users[chat := DefaultUser(chat)];
      }
      u := users[chat];
    }

    /**
     * `set_user`: with no fields nothing happens; otherwise one update assigns
     * every named column of the chat's row, and a chat without a row matches
     * nothing.
     */
    method SetUser(chat: ChatId, fields: seq<Field>)
      requires Valid()
      modifies this
      ensures Valid()
      ensures users == if fields != [] && chat in old(users)
        then old(users)[chat := ApplyFields(old(users)[chat], fields)]
        else old(users)
      ensures vocab == old(vocab) && nextVocabId == old(nextVocabId)
      ensures answers == old(answers) && nextAnswerId == old(nextAnswerId)
    {
      if fields == [] {
        return;
      }
      if chat in users {
        var row := users[chat];
        for i := 0 to |fields|
          invariant row == ApplyFields(users[chat], fields[..i])
          invariant row.chatId == chat
        {
          assert fields[..i + 1][..i] == fields[..i];
          row := Assign(row, fields[i]);
        }
        assert fields[..|fields|] == fields;
        users := users[chat := row];
      }
    }

    /** `add_vocab`: the stripped text as a fresh active row, unless nothing is left after stripping. */
    method AddVocab(chat: ChatId, text: string)
      requires Valid()
      modifies this
      ensures Valid()
      ensures Text.Strip(text) == [] ==> vocab == old(vocab) && nextVocabId == old(nextVocabId)
      ensures Text.Strip(text) != [] ==>
        && vocab == old(vocab) + [VocabItem(old(nextVocabId), chat, Text.Strip(text), None, 0, true)]
        && nextVocabId == old(nextVocabId) + 1
      ensures users == old(users) && answers == old(answers) && nextAnswerId == old(nextAnswerId)
    {
      var stripped := Text.Strip(text);
      if stripped == [] {
        return;
      }
      vocab := vocab + [VocabItem(nextVocabId, chat, stripped, None, 0, true)];
      nextVocabId := nextVocabId + 1;
    }

    /** `remove_vocab`: soft delete of the row with that id, only if it belongs to the chat. */
    method RemoveVocab(chat: ChatId, vid: int)
      requires Valid()
      modifies this
      ensures Valid()
      ensures vocab == Deactivated(old(vocab), chat, vid)
      ensures users == old(users) && nextVocabId == old(nextVocabId)
      ensures answers == old(answers) && nextAnswerId == old(nextAnswerId)
    {
      vocab := Deactivated(vocab, chat, vid);
    }

    /**
     * `record_answer`: append the answer stamped `now`, then stamp and
     * strengthen the vocab row with that id, whatever chat it belongs to.
     */
    method RecordAnswer(chat: ChatId, vid: int, text: string, now: Time)
      requires Valid()
      modifies this
      ensures Valid()
      ensures answers == old(answers) + [Answer(old(nextAnswerId), chat, vid, text, now)]
      ensures nextAnswerId == old(nextAnswerId) + 1
      ensures vocab == Touched(old(vocab), vid, now)
      ensures users == old(users) && nextVocabId == old(nextVocabId)
    {
      answers := answers + [Answer(nextAnswerId, chat, vid, text, now)];
      nextAnswerId := nextAnswerId + 1;
      vocab := Touched(vocab, vid, now);
    }
  }
}
