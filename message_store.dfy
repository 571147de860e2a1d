/**
  `MessageStore`: the ids of the bot's messages per chat, kept so that they
  can be deleted when the next command arrives.
*/
module MessageStore {

  class MessageStore {
    /** `chat_messages`, a `defaultdict(list)`: a missing chat reads as no messages. */
    var chatMessages: map<int, seq<int>>

    constructor()
      ensures chatMessages == map[]
    {
      chatMessages := map[];
    }

    /** `get_messages`: the chat's ids in the order they were added, or none. */
    function GetMessages(chatId: int): (r: seq<int>)
      reads this
      ensures chatId !in chatMessages ==> r == []
      ensures chatId in chatMessages ==> r == chatMessages[chatId]
    {
      if chatId in chatMessages then chatMessages[chatId] else []
    }

    /** `add_message`: appends to the chat's list, creating it when missing; other chats keep theirs. */
    method AddMessage(chatId: int, messageId: int)
      modifies this
      ensures chatMessages == old(chatMessages)[chatId := old(GetMessages(chatId)) + [messageId]]
      ensures GetMessages(chatId) == old(GetMessages(chatId)) + [messageId]
      ensures forall c :: c != chatId ==> GetMessages(c) == old(GetMessages(c))
    {
      chatMessages := chatMessages[chatId := GetMessages(chatId) + [messageId]];
    }

    /** `clear_chat`: forgets the chat's list, if there is one; other chats keep theirs. */
    method ClearChat(chatId: int)
      modifies this
      ensures chatMessages == old(chatMessages) - {chatId}
      ensures GetMessages(chatId) == []
      ensures forall c :: c != chatId ==> GetMessages(c) == old(GetMessages(c))
    {
      if chatId in chatMessages {
        chatMessages := chatMessages - {chatId};
      }
    }
  }
}
