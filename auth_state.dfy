/** The visitor's access level, shared by the chat page and the wait-list form. */
module AuthState {
  datatype Status = Guest | Waitlist | Paid
}
