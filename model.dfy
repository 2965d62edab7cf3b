/**
 * The external shapes exchanged with the query layer (`graph/model`): the
 * inputs of the two mutations and the Author and Book it returns. Every field
 * is text, as in the query schema; a Book carries its resolved Author.
 */
module Model {

  datatype AuthorInput = AuthorInput(name: string, birthdate: string)

  datatype BookInput = BookInput(title: string)

  datatype Author = Author(id: string, name: string, birthdate: string)

  datatype Book = Book(id: string, title: string, author: Author)
}
