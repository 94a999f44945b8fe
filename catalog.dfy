/** The static data the two pages read: questions, member answer vectors, descriptions, images. */
module Catalog {
  /** A question with its prompt and ordered answer labels; an answer is a 0-based position in `choices`. */
  datatype Question = Question(id: int, prompt: string, choices: seq<string>)

  /** A member profile: `answer[i]` is the 1-based choice the member gave to question `i`. */
  datatype Member = Member(studentNumber: string, name: string, answer: seq<int>)

  /** A description entry; `name` may carry a bracketed alias and a leading marker. */
  datatype MemberDescription = MemberDescription(name: string, desc: string)

  /** An image parsed from a file name `studentNumber_name.ext`. */
  datatype MemberImage = MemberImage(studentNumber: string, name: string, src: string)
}
