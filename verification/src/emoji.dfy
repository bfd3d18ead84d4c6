/** The emoji record shared by every stage: its literal value and the keywords of one locale. */
module Emojis {

  datatype Emoji = Emoji(value: string, keywords: seq<string>)
}
