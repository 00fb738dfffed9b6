/** The role-tagged chat message shared by the two chat surfaces. */
module Conversation {
  datatype Role = User | Assistant

  datatype Message = Message(role: Role, content: string)
}
